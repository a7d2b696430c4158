/** Shared vocabulary of the scraping and tidying scripts: an Option type,
    the ASCII subset of Python's character classes, the string methods the
    scripts call (`strip`, `split`, `count`, `replace`, `lower`), decimal
    conversion with Python's `int()`, and Python's ordering of strings. */
module Common {

  datatype Option<T> = None | Some(value: T)

  // ---------------------------------------------------------------------
  // Character classes (ASCII part of Python's str predicates)
  // ---------------------------------------------------------------------

  predicate IsDigit(c: char) { '0' <= c <= '9' }
  predicate IsLowerAscii(c: char) { 'a' <= c <= 'z' }
  predicate IsUpperAscii(c: char) { 'A' <= c <= 'Z' }
  predicate IsAlnum(c: char) { IsDigit(c) || IsLowerAscii(c) || IsUpperAscii(c) }

  /** `str.isspace` on ASCII: space, \t \n \v \f \r and the separators \x1c-\x1f. */
  predicate IsSpace(c: char) {
    c == ' ' || ('\t' <= c <= '\r') || ('\U{1C}' <= c <= '\U{1F}')
  }

  function Lower(c: char): (r: char)
    ensures IsUpperAscii(c) ==> IsLowerAscii(r)
    ensures !IsUpperAscii(c) ==> r == c
  {
    if IsUpperAscii(c) then (c as int - 'A' as int + 'a' as int) as char else c
  }

  /** `str.lower()` */
  function LowerStr(s: string): (r: string)
    ensures |r| == |s|
    ensures forall i :: 0 <= i < |s| ==> r[i] == Lower(s[i])
  {
    if s == [] then [] else [Lower(s[0])] + LowerStr(s[1..])
  }

  /** `str.isdigit()`: non-empty and every character a digit. */
  predicate AllDigits(s: string) {
    |s| > 0 && forall i :: 0 <= i < |s| ==> IsDigit(s[i])
  }

  // ---------------------------------------------------------------------
  // strip
  // ---------------------------------------------------------------------

  function LStrip(s: string): (r: string)
    ensures |r| <= |s|
    ensures r == [] || !IsSpace(r[0])
    ensures s != [] && IsSpace(s[0]) ==> |r| < |s|
  {
    if s != [] && IsSpace(s[0]) then LStrip(s[1..]) else s
  }

  function RStrip(s: string): (r: string)
    ensures |r| <= |s| && r == s[..|r|]
    ensures r == [] || !IsSpace(r[|r| - 1])
  {
    if s != [] && IsSpace(s[|s| - 1]) then RStrip(s[..|s| - 1]) else s
  }

  /** `str.strip()`: the longest slice of `s` without whitespace at either end. */
  function Strip(s: string): (r: string)
    ensures r == [] || (!IsSpace(r[0]) && !IsSpace(r[|r| - 1]))
    ensures |r| <= |s|
  {
    RStrip(LStrip(s))
  }

  /** A string with no whitespace at either end is its own strip. */
  lemma {:induction false} StripFixed(s: string)
    requires s == [] || (!IsSpace(s[0]) && !IsSpace(s[|s| - 1]))
    ensures Strip(s) == s
  {
  }

  /** `[w.strip() for w in words]` */
  function StripAll(words: seq<string>): (r: seq<string>)
    ensures |r| == |words|
    ensures forall k :: 0 <= k < |words| ==> r[k] == Strip(words[k])
  {
    if words == [] then [] else [Strip(words[0])] + StripAll(words[1..])
  }

  // ---------------------------------------------------------------------
  // Substrings: startswith, find, split, join, count, replace
  // ---------------------------------------------------------------------

  predicate StartsWith(s: string, p: string) {
    |p| <= |s| && s[..|p|] == p
  }

  predicate OccursAt(s: string, p: string, i: int) {
    0 <= i && i + |p| <= |s| && s[i..i + |p|] == p
  }

  /** `str.find`: the first index at which `p` occurs in `s`. */
  function Find(s: string, p: string): (r: Option<nat>)
    requires |p| > 0
    ensures r.Some? ==> OccursAt(s, p, r.value)
    ensures r.Some? ==> forall j :: 0 <= j < r.value ==> !OccursAt(s, p, j)
    ensures r.None? ==> forall j :: !OccursAt(s, p, j)
    decreases |s|
  {
    if |s| < |p| then
      assert forall j :: !OccursAt(s, p, j);
      None
    else if StartsWith(s, p) then Some(0)
    else
      var rest := Find(s[1..], p);
      assert forall j :: 1 <= j ==> (OccursAt(s, p, j) <==> OccursAt(s[1..], p, j - 1)) by {
        forall j | 1 <= j ensures OccursAt(s, p, j) <==> OccursAt(s[1..], p, j - 1) {
          OccursShift(s, p, j);
        }
      }
      assert !OccursAt(s, p, 0);
      if rest.None? then None else Some(rest.value + 1)
  }

  lemma OccursShift(s: string, p: string, j: int)
    requires |s| > 0 && 1 <= j
    ensures OccursAt(s, p, j) <==> OccursAt(s[1..], p, j - 1)
  {
    if j + |p| <= |s| {
      var here, there := s[j..j + |p|], s[1..][j - 1..j - 1 + |p|];
      forall t | 0 <= t < |p| ensures here[t] == there[t] {
        assert here[t] == s[j + t];
        assert there[t] == s[1..][j - 1 + t];
      }
      assert here == there;
    }
  }

  predicate Contains(s: string, p: string) {
    exists i | 0 <= i <= |s| - |p| :: OccursAt(s, p, i)
  }

  /** `s.split(sep)` for a non-empty separator: the pieces between the
      successive leftmost, non-overlapping occurrences of `sep`. */
  function Split(s: string, sep: string): (parts: seq<string>)
    requires |sep| > 0
    ensures |parts| >= 1
    decreases |s|
  {
    match Find(s, sep)
    case None => [s]
    case Some(i) =>
      [s[..i]] + Split(s[i + |sep|..], sep)
  }

  /** The first piece of a split is the text before the first separator. */
  lemma SplitHead(s: string, sep: string)
    requires |sep| > 0
    ensures Find(s, sep).None? ==> Split(s, sep) == [s]
    ensures Find(s, sep).Some? ==> Split(s, sep)[0] == s[..Find(s, sep).value]
  {
  }

  /** `sep.join(parts)` */
  function Join(parts: seq<string>, sep: string): string {
    if parts == [] then ""
    else if |parts| == 1 then parts[0]
    else parts[0] + sep + Join(parts[1..], sep)
  }

  /** Splitting and joining again gives back the original text. */
  lemma {:induction false} SplitJoin(s: string, sep: string)
    requires |sep| > 0
    ensures Join(Split(s, sep), sep) == s
    decreases |s|
  {
    match Find(s, sep)
    case None =>
    case Some(i) =>
      SplitJoin(s[i + |sep|..], sep);
      var tail := Split(s[i + |sep|..], sep);
      assert Split(s, sep) == [s[..i]] + tail;
      assert Join([s[..i]] + tail, sep) == s[..i] + sep + Join(tail, sep);
      assert s == s[..i] + s[i..i + |sep|] + s[i + |sep|..];
  }

  /** `s.count(p)` for non-empty `p`: non-overlapping occurrences, left to right. */
  function Count(s: string, p: string): (n: nat)
    requires |p| > 0
    ensures n > 0 ==> Contains(s, p)
    ensures n <= |s|
    decreases |s|
  {
    if |s| < |p| then 0
    else if StartsWith(s, p) then
      assert OccursAt(s, p, 0);
      1 + Count(s[|p|..], p)
    else
      var n := Count(s[1..], p);
      if n > 0 then ContainsShift(s, p); n else n
  }

  lemma ContainsShift(s: string, p: string)
    requires |s| > 0 && Contains(s[1..], p)
    ensures Contains(s, p)
  {
    var j :| 0 <= j <= |s[1..]| - |p| && OccursAt(s[1..], p, j);
    assert s[j + 1..j + 1 + |p|] == s[1..][j..j + |p|];
    assert OccursAt(s, p, j + 1);
  }

  /** `s.replace(p, r)` for non-empty `p`. */
  function ReplaceAll(s: string, p: string, r: string): string
    requires |p| > 0
    decreases |s|
  {
    if |s| < |p| then s
    else if StartsWith(s, p) then r + ReplaceAll(s[|p|..], p, r)
    else [s[0]] + ReplaceAll(s[1..], p, r)
  }

  /** Deleting a pattern from a text that is the pattern followed by text
      that cannot start a new occurrence leaves that text. */
  lemma ReplacePrefix(p: string, t: string)
    requires |p| > 0
    requires ReplaceAll(t, p, "") == t
    ensures ReplaceAll(p + t, p, "") == t
  {
    assert StartsWith(p + t, p);
    assert (p + t)[|p|..] == t;
  }

  // ---------------------------------------------------------------------
  // Decimal numbers
  // ---------------------------------------------------------------------

  function DigitChar(d: nat): (c: char)
    requires d < 10
    ensures IsDigit(c)
  {
    ('0' as int + d) as char
  }

  function DigitValue(c: char): (d: nat)
    requires IsDigit(c)
    ensures d < 10
  {
    c as int - '0' as int
  }

  /** The value of a string of decimal digits. */
  function DigitsValue(s: string): nat
    requires forall i :: 0 <= i < |s| ==> IsDigit(s[i])
  {
    if s == [] then 0 else DigitsValue(s[..|s| - 1]) * 10 + DigitValue(s[|s| - 1])
  }

  /** `str(n)` for a natural number. */
  function NatToString(n: nat): (s: string)
    ensures AllDigits(s)
  {
    if n < 10 then [DigitChar(n)] else NatToString(n / 10) + [DigitChar(n % 10)]
  }

  /** `int(str(n)) == n`. */
  lemma {:induction false} NatToStringRoundTrip(n: nat)
    ensures DigitsValue(NatToString(n)) == n
  {
    if n >= 10 {
      NatToStringRoundTrip(n / 10);
      var s := NatToString(n);
      assert s[..|s| - 1] == NatToString(n / 10);
    }
  }

  /** Different numbers print differently. */
  lemma NatToStringInjective(a: nat, b: nat)
    requires NatToString(a) == NatToString(b)
    ensures a == b
  {
    NatToStringRoundTrip(a);
    NatToStringRoundTrip(b);
  }

  /** Position `i` of `t` holds a digit, or an underscore with a digit on
      either side. */
  predicate DigitOrJoin(t: string, i: int)
    requires 0 <= i < |t|
  {
    IsDigit(t[i]) || (t[i] == '_' && 0 < i < |t| - 1 && IsDigit(t[i - 1]) && IsDigit(t[i + 1]))
  }

  /** The digit strings Python's `int()` accepts in base 10: decimal digits,
      with single underscores allowed between two digits (`1_000`). */
  predicate PyDigits(t: string) {
    |t| > 0 && forall i :: 0 <= i < |t| ==> DigitOrJoin(t, i)
  }

  /** The characters of `s` other than underscores, in order. */
  function DropUnderscores(s: string): (r: string)
    ensures (forall i :: 0 <= i < |s| ==> IsDigit(s[i]) || s[i] == '_') ==>
      forall i :: 0 <= i < |r| ==> IsDigit(r[i])
    ensures s != [] && IsDigit(s[0]) ==> r != [] && r[0] == s[0]
  {
    if s == [] then []
    else
      assert forall i :: 0 <= i < |s[1..]| ==> s[1..][i] == s[i + 1];
      (if s[0] == '_' then [] else [s[0]]) + DropUnderscores(s[1..])
  }

  /** The value of an accepted digit string: its digits without the
      underscores. */
  function PyDigitsValue(t: string): nat
    requires PyDigits(t)
  {
    assert forall i :: 0 <= i < |t| ==> IsDigit(t[i]) || t[i] == '_' by {
      forall i | 0 <= i < |t| ensures IsDigit(t[i]) || t[i] == '_' {
        assert DigitOrJoin(t, i);
      }
    }
    DigitsValue(DropUnderscores(t))
  }

  /** Python's `int(s)` on text: surrounding whitespace, an optional sign and
      a digit string with single underscores between digits; anything else
      raises (here: None). */
  function PyInt(s: string): (r: Option<int>)
    ensures r.Some? ==> exists t :: t == Strip(s) && |t| > 0
  {
    var t := Strip(s);
    if PyDigits(t) then Some(PyDigitsValue(t))
    else if |t| > 1 && t[0] == '+' && PyDigits(t[1..]) then Some(PyDigitsValue(t[1..]))
    else if |t| > 1 && t[0] == '-' && PyDigits(t[1..]) then Some(0 - PyDigitsValue(t[1..]) as int)
    else None
  }

  /** Plain digits are accepted as they are. */
  lemma {:induction false} DropUnderscoresOfDigits(t: string)
    requires forall i :: 0 <= i < |t| ==> IsDigit(t[i])
    ensures DropUnderscores(t) == t
  {
    if t != [] {
      assert forall i :: 0 <= i < |t[1..]| ==> t[1..][i] == t[i + 1];
      DropUnderscoresOfDigits(t[1..]);
    }
  }

  /** `int()` of a non-empty digit string is its decimal value. */
  lemma PyIntOfDigitString(t: string)
    requires AllDigits(t)
    ensures PyInt(t) == Some(DigitsValue(t) as int)
  {
    assert IsDigit(t[0]) && IsDigit(t[|t| - 1]);
    StripFixed(t);
    assert forall i :: 0 <= i < |t| ==> DigitOrJoin(t, i);
    DropUnderscoresOfDigits(t);
  }

  /** Dropping underscores distributes over concatenation. */
  lemma {:induction false} DropUnderscoresAppend(a: string, b: string)
    ensures DropUnderscores(a + b) == DropUnderscores(a) + DropUnderscores(b)
  {
    if a != [] {
      assert (a + b)[0] == a[0] && (a + b)[1..] == a[1..] + b;
      DropUnderscoresAppend(a[1..], b);
      var h: string := if a[0] == '_' then [] else [a[0]];
      assert DropUnderscores(a + b) == h + (DropUnderscores(a[1..]) + DropUnderscores(b));
    } else {
      assert a + b == b;
    }
  }

  /** `int()` reads a single underscore between two digit strings as
      nothing: `int("1_2") == 12`. */
  lemma PyIntUnderscore(a: string, b: string)
    requires AllDigits(a) && AllDigits(b)
    ensures PyInt(a + "_" + b) == Some(DigitsValue(a + b) as int)
  {
    var t := a + "_" + b;
    JoinedDigits(a, b);
    PyIntOfPyDigits(t);
    calc {
      DropUnderscores(t);
      { DropUnderscoresAppend(a + "_", b); }
      DropUnderscores(a + "_") + DropUnderscores(b);
      { DropUnderscoresAppend(a, "_"); }
      DropUnderscores(a) + DropUnderscores("_") + DropUnderscores(b);
      { DropUnderscoresOfDigits(a); DropUnderscoresOfDigits(b); }
      a + DropUnderscores("_") + b;
      { assert DropUnderscores("_") == [] + DropUnderscores(""); }
      a + b;
    }
  }

  /** An accepted digit string, with nothing around it, is read as its
      value. */
  lemma PyIntOfPyDigits(t: string)
    requires PyDigits(t)
    ensures PyInt(t) == Some(PyDigitsValue(t) as int)
  {
    assert DigitOrJoin(t, 0) && DigitOrJoin(t, |t| - 1);
    StripFixed(t);
  }

  /** Two digit strings joined by an underscore form an accepted digit
      string. */
  lemma JoinedDigits(a: string, b: string)
    requires AllDigits(a) && AllDigits(b)
    ensures PyDigits(a + "_" + b)
  {
    var t := a + "_" + b;
    forall i | 0 <= i < |t|
      ensures DigitOrJoin(t, i)
    {
      if i < |a| {
        assert t[i] == a[i];
      } else if i == |a| {
        assert t[i] == '_' && t[i - 1] == a[|a| - 1] && t[i + 1] == b[0];
      } else {
        assert t[i] == b[i - |a| - 1];
      }
    }
  }

  /** `int(str(n)) == n` through Python's `int()`. */
  lemma PyIntOfNat(n: nat)
    ensures PyInt(NatToString(n)) == Some(n)
  {
    NatToStringRoundTrip(n);
    PyIntOfDigitString(NatToString(n));
  }

  // ---------------------------------------------------------------------
  // Python's ordering of strings (code point by code point)
  // ---------------------------------------------------------------------

  predicate LexLe(a: string, b: string) {
    if a == [] then true
    else if b == [] then false
    else if a[0] != b[0] then a[0] < b[0]
    else LexLe(a[1..], b[1..])
  }

  lemma {:induction false} LexLeTotal(a: string, b: string)
    ensures LexLe(a, b) || LexLe(b, a)
  {
    if a != [] && b != [] && a[0] == b[0] { LexLeTotal(a[1..], b[1..]); }
  }

  lemma {:induction false} LexLeTransitive(a: string, b: string, c: string)
    requires LexLe(a, b) && LexLe(b, c)
    ensures LexLe(a, c)
  {
    if a != [] && b != [] && c != [] && a[0] == b[0] && b[0] == c[0] {
      LexLeTransitive(a[1..], b[1..], c[1..]);
    }
  }

  lemma {:induction false} LexLeAntisymmetric(a: string, b: string)
    requires LexLe(a, b) && LexLe(b, a)
    ensures a == b
  {
    if a != [] && b != [] {
      LexLeAntisymmetric(a[1..], b[1..]);
      assert a == [a[0]] + a[1..];
      assert b == [b[0]] + b[1..];
    }
  }

  // ---------------------------------------------------------------------
  // Sequences
  // ---------------------------------------------------------------------

  /** `for xs in xss: out.extend(xs)` */
  function Concat<T>(xss: seq<seq<T>>): seq<T> {
    if xss == [] then [] else Concat(xss[..|xss| - 1]) + xss[|xss| - 1]
  }

  lemma {:induction false} ConcatAppend<T>(xss: seq<seq<T>>, ys: seq<seq<T>>)
    ensures Concat(xss + ys) == Concat(xss) + Concat(ys)
    decreases |ys|
  {
    if ys == [] {
      assert xss + ys == xss;
    } else {
      var init, last := ys[..|ys| - 1], ys[|ys| - 1];
      var whole := xss + ys;
      assert whole[..|whole| - 1] == xss + init && whole[|whole| - 1] == last;
      ConcatAppend(xss, init);
      calc {
        Concat(whole);
        Concat(xss + init) + last;
        (Concat(xss) + Concat(init)) + last;
        { assert (Concat(xss) + Concat(init)) + last == Concat(xss) + (Concat(init) + last); }
        Concat(xss) + (Concat(init) + last);
        Concat(xss) + Concat(ys);
      }
    }
  }

  /** A set other than the empty set has an element. */
  lemma NonEmptyHasElement(s: set<int>)
    requires s != {}
    ensures exists x :: x in s
  {
    if forall x :: x !in s { assert false; }
  }

  lemma NonEmptyNamesHaveElement(s: set<string>)
    requires s != {}
    ensures exists x :: x in s
  {
    if forall x :: x !in s { assert false; }
  }

  /** Python's `xs.remove(y)` when `y` may be absent: drop the first
      occurrence, or nothing. */
  function RemoveFirst<T(==,!new)>(xs: seq<T>, y: T): (r: seq<T>)
    ensures y !in xs ==> r == xs
    ensures y in xs ==> |r| == |xs| - 1
    ensures forall z :: z != y ==> (z in r <==> z in xs)
  {
    if xs == [] then []
    else if xs[0] == y then xs[1..]
    else [xs[0]] + RemoveFirst(xs[1..], y)
  }

  /** The position of the first occurrence of `y` in `xs`. */
  function FirstIndex<T(==)>(xs: seq<T>, y: T): (k: nat)
    requires y in xs
    ensures k < |xs| && xs[k] == y && y !in xs[..k]
  {
    if xs[0] == y then 0
    else
      var k := FirstIndex(xs[1..], y);
      assert xs[..k + 1] == [xs[0]] + xs[1..][..k];
      k + 1
  }

  /** `remove` takes out the first occurrence and keeps the rest of the
      list, in order. */
  lemma {:induction false} RemoveFirstSplits<T(!new)>(xs: seq<T>, y: T)
    requires y in xs
    ensures RemoveFirst(xs, y) == xs[..FirstIndex(xs, y)] + xs[FirstIndex(xs, y) + 1..]
  {
    if xs[0] != y {
      var t := xs[1..];
      RemoveFirstSplits(t, y);
      var k := FirstIndex(t, y);
      assert xs[..k + 1] == [xs[0]] + t[..k];
      assert xs[k + 2..] == t[k + 1..];
    }
  }

  /** Removing from a list without repeats leaves no occurrence behind. */
  lemma {:induction false} RemoveFirstDistinct<T(!new)>(xs: seq<T>, y: T)
    requires forall i, j :: 0 <= i < j < |xs| ==> xs[i] != xs[j]
    ensures y !in RemoveFirst(xs, y)
    ensures forall i, j :: 0 <= i < j < |RemoveFirst(xs, y)| ==>
      RemoveFirst(xs, y)[i] != RemoveFirst(xs, y)[j]
  {
    if xs != [] && xs[0] != y {
      RemoveFirstDistinct(xs[1..], y);
      var rest := RemoveFirst(xs[1..], y);
      assert xs[0] !in xs[1..];
      assert forall i :: 0 < i < |[xs[0]] + rest| ==> ([xs[0]] + rest)[i] == rest[i - 1];
    } else if xs != [] {
      assert forall i :: 0 <= i < |xs[1..]| ==> xs[1..][i] == xs[i + 1];
    }
  }

  function Sum(xs: seq<int>): int {
    if xs == [] then 0 else Sum(xs[..|xs| - 1]) + xs[|xs| - 1]
  }

  function Min(a: int, b: int): int { if a <= b then a else b }
  function Max(a: int, b: int): int { if a >= b then a else b }

  /** Python's `(a + b - 1) // b` for non-negative `a` and positive `b`. */
  function CeilDiv(a: nat, b: nat): (q: nat)
    requires b > 0
    ensures q * b >= a
    ensures q == 0 || (q - 1) * b < a
  {
    (a + b - 1) / b
  }

  // ---------------------------------------------------------------------
  // sorted(xs, key=key, reverse=True)
  // ---------------------------------------------------------------------

  /** Keys never increase along `xs`. */
  predicate NonIncreasing<T>(xs: seq<T>, key: T -> int) {
    forall i, j :: 0 <= i < j < |xs| ==> key(xs[i]) >= key(xs[j])
  }

  /** The elements of `xs` whose key is `k`, in order. */
  function KeyFilter<T>(xs: seq<T>, key: T -> int, k: int): seq<T> {
    if xs == [] then []
    else (if key(xs[0]) == k then [xs[0]] else []) + KeyFilter(xs[1..], key, k)
  }

  /** Insert `a` before the first element whose key is not larger. */
  function InsertDesc<T>(a: T, ys: seq<T>, key: T -> int): seq<T> {
    if ys == [] then [a]
    else if key(ys[0]) <= key(a) then [a] + ys
    else [ys[0]] + InsertDesc(a, ys[1..], key)
  }

  /** A stable sort by key, largest first: `sorted(xs, key=key, reverse=True)`. */
  function SortDesc<T>(xs: seq<T>, key: T -> int): seq<T> {
    if xs == [] then [] else InsertDesc(xs[0], SortDesc(xs[1..], key), key)
  }

  lemma {:induction false} InsertDescPerm<T>(a: T, ys: seq<T>, key: T -> int)
    ensures multiset(InsertDesc(a, ys, key)) == multiset(ys) + multiset{a}
  {
    if ys != [] && key(ys[0]) > key(a) {
      InsertDescPerm(a, ys[1..], key);
      assert ys == [ys[0]] + ys[1..];
    }
  }

  /** No key of `xs` exceeds `b`. */
  predicate KeysAtMost<T>(xs: seq<T>, key: T -> int, b: int) {
    forall i :: 0 <= i < |xs| ==> key(xs[i]) <= b
  }

  lemma {:induction false} InsertDescAtMost<T>(a: T, ys: seq<T>, key: T -> int, b: int)
    requires KeysAtMost(ys, key, b) && key(a) <= b
    ensures KeysAtMost(InsertDesc(a, ys, key), key, b)
  {
    if ys != [] && key(ys[0]) > key(a) {
      var tail := ys[1..];
      assert KeysAtMost(tail, key, b) by {
        forall i | 0 <= i < |tail| ensures key(tail[i]) <= b {
          assert tail[i] == ys[i + 1];
        }
      }
      InsertDescAtMost(a, tail, key, b);
      var r := [ys[0]] + InsertDesc(a, tail, key);
      forall i | 0 < i < |r| ensures key(r[i]) <= b {
        assert r[i] == InsertDesc(a, tail, key)[i - 1];
      }
    }
  }

  lemma {:induction false} InsertDescSorted<T>(a: T, ys: seq<T>, key: T -> int)
    requires NonIncreasing(ys, key)
    ensures NonIncreasing(InsertDesc(a, ys, key), key)
  {
    if ys == [] {
    } else if key(ys[0]) <= key(a) {
      var r := [a] + ys;
      forall i, j | 0 <= i < j < |r| ensures key(r[i]) >= key(r[j]) {
        assert r[j] == ys[j - 1];
        if i > 0 {
          assert r[i] == ys[i - 1];
        } else {
          assert key(ys[0]) >= key(ys[j - 1]);
        }
      }
    } else {
      var tail := ys[1..];
      assert NonIncreasing(tail, key) by {
        forall i, j | 0 <= i < j < |tail| ensures key(tail[i]) >= key(tail[j]) {
          assert tail[i] == ys[i + 1] && tail[j] == ys[j + 1];
        }
      }
      assert KeysAtMost(tail, key, key(ys[0])) by {
        forall i | 0 <= i < |tail| ensures key(tail[i]) <= key(ys[0]) {
          assert tail[i] == ys[i + 1];
        }
      }
      InsertDescSorted(a, tail, key);
      InsertDescAtMost(a, tail, key, key(ys[0]));
      var ins := InsertDesc(a, tail, key);
      var r := [ys[0]] + ins;
      forall i, j | 0 <= i < j < |r| ensures key(r[i]) >= key(r[j]) {
        assert r[j] == ins[j - 1];
        if i > 0 {
          assert r[i] == ins[i - 1];
        }
      }
    }
  }

  lemma {:induction false} InsertDescFilter<T>(a: T, ys: seq<T>, key: T -> int, k: int)
    ensures KeyFilter(InsertDesc(a, ys, key), key, k) ==
      (if key(a) == k then [a] else []) + KeyFilter(ys, key, k)
  {
    if ys == [] {
    } else if key(ys[0]) <= key(a) {
      assert ([a] + ys)[1..] == ys;
    } else {
      InsertDescFilter(a, ys[1..], key, k);
      var ins := InsertDesc(a, ys[1..], key);
      assert ([ys[0]] + ins)[1..] == ins;
      if key(a) == k {
        assert key(ys[0]) != k;
      }
    }
  }

  /** The stable sort is a permutation, sorted largest first, and keeps the
      elements of every key in their original order. */
  lemma {:induction false} SortDescProps<T>(xs: seq<T>, key: T -> int, k: int)
    ensures multiset(SortDesc(xs, key)) == multiset(xs)
    ensures NonIncreasing(SortDesc(xs, key), key)
    ensures KeyFilter(SortDesc(xs, key), key, k) == KeyFilter(xs, key, k)
  {
    if xs != [] {
      SortDescProps(xs[1..], key, k);
      var rest := SortDesc(xs[1..], key);
      InsertDescPerm(xs[0], rest, key);
      InsertDescSorted(xs[0], rest, key);
      InsertDescFilter(xs[0], rest, key, k);
      assert xs == [xs[0]] + xs[1..];
    }
  }

  /** `xs[:k]` for a count `k`, and nothing when the count is not
      positive (`head(k)`, `nlargest(k)`). */
  function Take<T>(xs: seq<T>, k: int): (r: seq<T>)
    ensures |r| == if k <= 0 then 0 else Min(k, |xs|)
    ensures r == xs[..|r|]
  {
    if k <= 0 then [] else if k >= |xs| then xs else xs[..k]
  }

  /** `nlargest(k, key)`: the `k` elements with the largest keys, largest
      first, earlier elements first among equal keys. */
  function TopK<T>(xs: seq<T>, key: T -> int, k: int): seq<T> {
    Take(SortDesc(xs, key), k)
  }

  /** What `nlargest` leaves out. */
  function Passed<T>(xs: seq<T>, key: T -> int, k: int): seq<T> {
    SortDesc(xs, key)[|TopK(xs, key, k)|..]
  }

  /** Cutting a non-increasing sequence at `m` keeps the multiset, leaves
      both halves non-increasing and puts no key in the tail above one in
      the head. */
  lemma SplitSorted<T>(s: seq<T>, key: T -> int, m: nat)
    requires m <= |s| && NonIncreasing(s, key)
    ensures multiset(s[..m]) + multiset(s[m..]) == multiset(s)
    ensures NonIncreasing(s[..m], key)
    ensures forall i, j :: 0 <= i < m && 0 <= j < |s| - m ==> key(s[..m][i]) >= key(s[m..][j])
  {
    assert s == s[..m] + s[m..];
    forall i, j | 0 <= i < j < m ensures key(s[..m][i]) >= key(s[..m][j]) {
      assert s[..m][i] == s[i] && s[..m][j] == s[j];
    }
    forall i, j | 0 <= i < m && 0 <= j < |s| - m ensures key(s[..m][i]) >= key(s[m..][j]) {
      assert s[..m][i] == s[i] && s[m..][j] == s[m + j];
    }
  }

  /** `nlargest(k)` picks `min(k, |xs|)` of the elements, largest first,
      and no element it passes over has a larger key than one it picks. */
  lemma TopKProps<T>(xs: seq<T>, key: T -> int, k: int)
    ensures |TopK(xs, key, k)| == if k <= 0 then 0 else Min(k, |xs|)
    ensures multiset(TopK(xs, key, k)) + multiset(Passed(xs, key, k)) == multiset(xs)
    ensures NonIncreasing(TopK(xs, key, k), key)
    ensures forall i, j :: 0 <= i < |TopK(xs, key, k)| && 0 <= j < |Passed(xs, key, k)| ==>
      key(TopK(xs, key, k)[i]) >= key(Passed(xs, key, k)[j])
    ensures forall x :: x in TopK(xs, key, k) ==> x in xs
  {
    var s := SortDesc(xs, key);
    SortDescProps(xs, key, 0);
    assert |s| == |multiset(s)| == |multiset(xs)| == |xs|;
    var m := |TopK(xs, key, k)|;
    assert TopK(xs, key, k) == s[..m] && Passed(xs, key, k) == s[m..];
    SplitSorted(s, key, m);
    forall x | x in s[..m] ensures x in xs {
      assert x in multiset(s[..m]);
      assert x in multiset(s);
    }
  }

  /** The two-step `nlargest(a).head(b)` is `nlargest(b)` when `b <= a`. */
  lemma TopKHead<T>(xs: seq<T>, key: T -> int, a: int, b: int)
    requires b <= a
    ensures Take(TopK(xs, key, a), b) == TopK(xs, key, b)
  {
  }

  // ---------------------------------------------------------------------
  // Whitespace words
  // ---------------------------------------------------------------------

  /** The text holds no whitespace. */
  predicate NoSpace(s: string) {
    forall k :: 0 <= k < |s| ==> !IsSpace(s[k])
  }

  /** The length of the run of non-whitespace characters that starts `s`. */
  function WordEnd(s: string): (n: nat)
    ensures n <= |s| && NoSpace(s[..n])
    ensures n < |s| ==> IsSpace(s[n])
    ensures s != [] && !IsSpace(s[0]) ==> n > 0
  {
    if s == [] || IsSpace(s[0]) then 0
    else
      var n := WordEnd(s[1..]);
      n + 1
  }

  /** `s.split()`: the maximal runs of non-whitespace characters, in order. */
  function Words(s: string): (ws: seq<string>)
    ensures forall i :: 0 <= i < |ws| ==> |ws[i]| > 0 && NoSpace(ws[i])
    decreases |s|
  {
    var t := LStrip(s);
    if t == [] then []
    else
      var n := WordEnd(t);
      [t[..n]] + Words(t[n..])
  }

  /** `s.split()` is empty exactly when `s` is all whitespace. */
  lemma {:induction false} WordsEmpty(s: string)
    ensures Words(s) == [] <==> forall k :: 0 <= k < |s| ==> IsSpace(s[k])
    decreases |s|
  {
    LStripAllSpace(s);
  }

  /** LStrip removes whitespace only, and leaves nothing exactly when
      everything was whitespace. */
  lemma {:induction false} LStripAllSpace(s: string)
    ensures LStrip(s) == [] <==> forall k :: 0 <= k < |s| ==> IsSpace(s[k])
    decreases |s|
  {
    if s != [] && IsSpace(s[0]) {
      LStripAllSpace(s[1..]);
      assert forall k :: 1 <= k < |s| ==> s[k] == s[1..][k - 1];
    }
  }

  /** A left strip is what is left after a run of whitespace. */
  lemma {:induction false} LStripSuffix(s: string)
    ensures LStrip(s) == s[|s| - |LStrip(s)|..]
    ensures forall k :: 0 <= k < |s| - |LStrip(s)| ==> IsSpace(s[k])
    decreases |s|
  {
    if s != [] && IsSpace(s[0]) {
      LStripSuffix(s[1..]);
    }
  }

  /** Every character of a left strip comes from the text. */
  lemma {:induction false} LStripPart(s: string)
    ensures forall k :: 0 <= k < |LStrip(s)| ==> LStrip(s)[k] in s
    decreases |s|
  {
    if s != [] && IsSpace(s[0]) {
      LStripPart(s[1..]);
      assert forall c :: c in s[1..] ==> c in s;
    }
  }

  /** Every character of a word comes from the text. */
  lemma {:induction false} WordsPart(s: string)
    ensures forall i, k :: 0 <= i < |Words(s)| && 0 <= k < |Words(s)[i]| ==> Words(s)[i][k] in s
    decreases |s|
  {
    LStripPart(s);
    var t := LStrip(s);
    if t != [] {
      var n := WordEnd(t);
      WordsPart(t[n..]);
      assert forall c :: c in t[n..] ==> c in t;
      assert forall c :: c in t[..n] ==> c in t;
    }
  }

  /** `re.sub(r'\s+', ' ', s)`: every maximal run of whitespace becomes
      one space, everything else is copied. */
  function Collapse(s: string): string
    decreases |s|
  {
    if s == [] then ""
    else if IsSpace(s[0]) then " " + Collapse(LStrip(s))
    else
      var n := WordEnd(s);
      s[..n] + Collapse(s[n..])
  }

  /** The text ends in whitespace. */
  predicate TrailingSpace(s: string) {
    s != [] && IsSpace(s[|s| - 1])
  }

  /** A text that starts with a word collapses to its words joined by
      single spaces, plus one space for trailing whitespace. */
  lemma {:induction false} CollapseWords(u: string)
    requires u == [] || !IsSpace(u[0])
    ensures Collapse(u) == Join(Words(u), " ") + (if TrailingSpace(u) then " " else "")
    decreases |u|
  {
    if u != [] {
      var r := u[WordEnd(u)..];
      if r == [] {
        CollapseLastWord(u);
      } else if LStrip(r) == [] {
        CollapseLastWordSpace(u);
      } else {
        CollapseWords(LStrip(r));
        CollapseNextWord(u);
      }
    }
  }

  lemma CollapseLastWord(u: string)
    requires u != [] && !IsSpace(u[0]) && WordEnd(u) == |u|
    ensures Collapse(u) == Join(Words(u), " ") + (if TrailingSpace(u) then " " else "")
  {
    var n := WordEnd(u);
    assert LStrip(u) == u;
    assert u[..n] == u;
    assert Words(u) == [u] + Words(u[n..]);
  }

  lemma CollapseLastWordSpace(u: string)
    requires u != [] && !IsSpace(u[0])
    requires var r := u[WordEnd(u)..]; r != [] && LStrip(r) == []
    ensures Collapse(u) == Join(Words(u), " ") + (if TrailingSpace(u) then " " else "")
  {
    var n := WordEnd(u);
    var r := u[n..];
    assert LStrip(u) == u;
    LStripAllSpace(r);
    assert u[|u| - 1] == r[|r| - 1];
    assert Words(r) == [];
    assert Words(u) == [u[..n]];
    assert Collapse(r) == " ";
  }

  lemma CollapseNextWord(u: string)
    requires u != [] && !IsSpace(u[0])
    requires var r := u[WordEnd(u)..]; r != [] && LStrip(r) != []
    requires var r' := LStrip(u[WordEnd(u)..]);
      Collapse(r') == Join(Words(r'), " ") + (if TrailingSpace(r') then " " else "")
    ensures Collapse(u) == Join(Words(u), " ") + (if TrailingSpace(u) then " " else "")
  {
    var w := u[..WordEnd(u)];
    var r' := LStrip(u[WordEnd(u)..]);
    NextWordCollapse(u);
    NextWordJoin(u);
    NextWordTrailing(u);
    var tail: string := if TrailingSpace(r') then " " else "";
    Assemble(Collapse(u), Join(Words(u), " "), w, Collapse(r'), Join(Words(r'), " "), tail);
  }

  /** The word, a space and the rest, with the rest's tail. */
  lemma Assemble(cu: string, ju: string, w: string, cr: string, jr: string, tail: string)
    requires cu == w + " " + cr && cr == jr + tail && ju == w + " " + jr
    ensures cu == ju + tail
  {
    assert w + " " + (jr + tail) == w + " " + jr + tail;
  }

  lemma NextWordCollapse(u: string)
    requires u != [] && !IsSpace(u[0])
    requires u[WordEnd(u)..] != []
    ensures Collapse(u) == u[..WordEnd(u)] + " " + Collapse(LStrip(u[WordEnd(u)..]))
  {
    var n := WordEnd(u);
    var r := u[n..];
    assert Collapse(u) == u[..n] + Collapse(r);
    assert Collapse(r) == " " + Collapse(LStrip(r));
  }

  lemma NextWordJoin(u: string)
    requires u != [] && !IsSpace(u[0])
    requires var r := u[WordEnd(u)..]; r != [] && LStrip(r) != []
    ensures Join(Words(u), " ") == u[..WordEnd(u)] + " " + Join(Words(LStrip(u[WordEnd(u)..])), " ")
  {
    var n := WordEnd(u);
    var r := u[n..];
    var r' := LStrip(r);
    assert LStrip(u) == u;
    assert Words(u) == [u[..n]] + Words(r);
    assert Words(r) == Words(r');
    var ws := Words(r');
    assert ws != [];
    assert ([u[..n]] + ws)[1..] == ws;
  }

  lemma NextWordTrailing(u: string)
    requires u != [] && !IsSpace(u[0])
    requires var r := u[WordEnd(u)..]; r != [] && LStrip(r) != []
    ensures TrailingSpace(u) == TrailingSpace(LStrip(u[WordEnd(u)..]))
  {
    var r := u[WordEnd(u)..];
    var r' := LStrip(r);
    LStripSuffix(r);
    assert u[|u| - 1] == r'[|r'| - 1];
  }

  /** The text is all whitespace. */
  predicate AllSpace(s: string) {
    forall k :: 0 <= k < |s| ==> IsSpace(s[k])
  }

  /** Left-stripping leading whitespace off a text that then starts with
      a word leaves that text. */
  lemma {:induction false} LStripSpaces(a: string, x: string)
    requires AllSpace(a)
    requires x == [] || !IsSpace(x[0])
    ensures LStrip(a + x) == x
    decreases |a|
  {
    if a != [] {
      assert (a + x)[1..] == a[1..] + x;
      LStripSpaces(a[1..], x);
    } else {
      assert a + x == x;
    }
  }

  lemma {:induction false} RStripSpaces(x: string, b: string)
    requires AllSpace(b)
    requires x == [] || !IsSpace(x[|x| - 1])
    ensures RStrip(x + b) == x
    decreases |b|
  {
    if b != [] {
      assert (x + b)[..|x + b| - 1] == x + b[..|b| - 1];
      RStripSpaces(x, b[..|b| - 1]);
    } else {
      assert x + b == x;
    }
  }

  /** Stripping whitespace padding off a text without whitespace at its
      ends gives the text. */
  lemma StripPadded(a: string, j: string, b: string)
    requires AllSpace(a) && AllSpace(b)
    requires j == [] || (!IsSpace(j[0]) && !IsSpace(j[|j| - 1]))
    ensures Strip(a + (j + b)) == j
  {
    if j == [] {
      assert a + (j + b) == a + b;
      LStripAllSpace(a + b);
    } else {
      LStripSpaces(a, j + b);
      RStripSpaces(j, b);
    }
  }

  /** Words joined by single spaces neither start nor end with one. */
  lemma {:induction false} JoinEnds(ws: seq<string>)
    requires forall i :: 0 <= i < |ws| ==> |ws[i]| > 0 && NoSpace(ws[i])
    ensures var j := Join(ws, " ");
      j == [] <==> ws == []
    ensures var j := Join(ws, " ");
      j == [] || (!IsSpace(j[0]) && !IsSpace(j[|j| - 1]))
  {
    if |ws| > 1 {
      JoinEnds(ws[1..]);
      var j := Join(ws, " ");
      var rest := Join(ws[1..], " ");
      assert j == ws[0] + " " + rest;
      assert j[0] == ws[0][0];
      assert j[|j| - 1] == rest[|rest| - 1];
    }
  }

  /** `' '.join(s.split())` */
  function JoinWords(s: string): string {
    Join(Words(s), " ")
  }

  /** Collapsing whitespace runs and stripping the ends is the same as
      joining the words with single spaces. */
  lemma CollapseStrip(s: string)
    ensures Strip(Collapse(s)) == JoinWords(s)
  {
    var t := LStrip(s);
    var lead: string := if s != [] && IsSpace(s[0]) then " " else "";
    var tail: string := if TrailingSpace(t) then " " else "";
    var j := JoinWords(s);
    calc {
      Strip(Collapse(s));
      { CollapseLead(s); }
      Strip(lead + Collapse(t));
      { CollapseWords(t); WordsLStrip(s); }
      Strip(lead + (j + tail));
      { JoinEnds(Words(s)); StripPadded(lead, j, tail); }
      j;
    }
  }

  /** A leading run of whitespace collapses to one space. */
  lemma CollapseLead(s: string)
    ensures Collapse(s) == (if s != [] && IsSpace(s[0]) then " " else "") + Collapse(LStrip(s))
  {
    if !(s != [] && IsSpace(s[0])) {
      assert LStrip(s) == s;
    }
  }

  /** Leading whitespace does not change the words. */
  lemma WordsLStrip(s: string)
    ensures Words(LStrip(s)) == Words(s)
  {
    var t := LStrip(s);
    assert LStrip(t) == t;
  }

  /** Whitespace in the text is a single space between two other
      characters: none at either end, none doubled, no tab or newline. */
  predicate SingleSpaced(j: string) {
    forall k :: 0 <= k < |j| && IsSpace(j[k]) ==>
      j[k] == ' ' && 0 < k < |j| - 1 && !IsSpace(j[k - 1]) && !IsSpace(j[k + 1])
  }

  /** Non-empty words without whitespace joined by single spaces are
      single spaced. */
  lemma {:induction false} JoinSingleSpaced(ws: seq<string>)
    requires forall i :: 0 <= i < |ws| ==> |ws[i]| > 0 && NoSpace(ws[i])
    ensures SingleSpaced(Join(ws, " "))
  {
    if |ws| > 1 {
      var w := ws[0];
      var rest := Join(ws[1..], " ");
      JoinSingleSpaced(ws[1..]);
      JoinEnds(ws[1..]);
      WordSpaceRest(w, rest);
    }
  }

  lemma WordSpaceRest(w: string, rest: string)
    requires |w| > 0 && NoSpace(w) && |rest| > 0 && !IsSpace(rest[0]) && SingleSpaced(rest)
    ensures SingleSpaced(w + " " + rest)
  {
    var j := w + " " + rest;
    forall k | 0 <= k < |j|
      ensures IsSpace(j[k]) ==> j[k] == ' ' && 0 < k < |j| - 1 && !IsSpace(j[k - 1]) && !IsSpace(j[k + 1])
    {
      if k < |w| {
        assert j[k] == w[k];
      } else if k > |w| {
        assert j[k] == rest[k - |w| - 1];
        if IsSpace(j[k]) {
          assert j[k - 1] == rest[k - |w| - 2];
          assert j[k + 1] == rest[k - |w|];
        }
      } else {
        assert j[k - 1] == w[|w| - 1];
        assert j[k + 1] == rest[0];
      }
    }
  }

  /** The first word of a text that starts with a word ends where the
      word does. */
  lemma {:induction false} WordEndAfter(w: string, rest: string)
    requires NoSpace(w)
    requires rest == [] || IsSpace(rest[0])
    ensures WordEnd(w + rest) == |w|
    decreases |w|
  {
    if w != [] {
      assert (w + rest)[1..] == w[1..] + rest;
      WordEndAfter(w[1..], rest);
    } else {
      assert w + rest == rest;
    }
  }

  /** Splitting words joined by single spaces gives the words back. */
  lemma {:induction false} WordsOfJoin(ws: seq<string>)
    requires forall i :: 0 <= i < |ws| ==> |ws[i]| > 0 && NoSpace(ws[i])
    ensures Words(Join(ws, " ")) == ws
  {
    if |ws| == 1 {
      WordsOfWord(ws[0]);
    } else if |ws| > 1 {
      WordsOfJoin(ws[1..]);
      JoinEnds(ws[1..]);
      WordsOfJoinStep(ws);
    }
  }

  lemma WordsOfJoinStep(ws: seq<string>)
    requires |ws| > 1 && |ws[0]| > 0 && NoSpace(ws[0])
    requires Join(ws[1..], " ") != [] && !IsSpace(Join(ws[1..], " ")[0])
    requires Words(Join(ws[1..], " ")) == ws[1..]
    ensures Words(Join(ws, " ")) == ws
  {
    WordsOfWordSpace(ws[0], Join(ws[1..], " "));
    assert ws == [ws[0]] + ws[1..];
  }

  lemma WordsOfWord(w: string)
    requires |w| > 0 && NoSpace(w)
    ensures Words(w) == [w]
  {
    WordEndAfter(w, []);
    assert w + [] == w;
    assert LStrip(w) == w;
    assert w[..|w|] == w;
  }

  lemma WordsOfWordSpace(w: string, rest: string)
    requires |w| > 0 && NoSpace(w) && |rest| > 0 && !IsSpace(rest[0])
    ensures Words(w + " " + rest) == [w] + Words(rest)
  {
    var j := w + " " + rest;
    assert j == w + (" " + rest);
    WordEndAfter(w, " " + rest);
    assert LStrip(j) == j;
    assert j[..|w|] == w && j[|w|..] == " " + rest;
    LStripSpaces(" ", rest);
    WordsLStrip(" " + rest);
  }

  /** `' '.join(s.split())` gives the same text when applied twice. */
  lemma JoinWordsIdempotent(s: string)
    ensures JoinWords(JoinWords(s)) == JoinWords(s)
  {
    WordsOfJoin(Words(s));
  }

  /** The text's non-whitespace characters, in order. */
  function NonSpace(s: string): (r: string)
    ensures NoSpace(r) && |r| <= |s|
  {
    if s == [] then ""
    else if IsSpace(s[0]) then NonSpace(s[1..])
    else [s[0]] + NonSpace(s[1..])
  }

  lemma {:induction false} NonSpaceAppend(a: string, b: string)
    ensures NonSpace(a + b) == NonSpace(a) + NonSpace(b)
  {
    if a == [] {
      assert a + b == b;
    } else {
      assert (a + b)[1..] == a[1..] + b;
      NonSpaceAppend(a[1..], b);
    }
  }

  lemma {:induction false} NonSpaceOfWord(w: string)
    requires NoSpace(w)
    ensures NonSpace(w) == w
  {
    if w != [] {
      NonSpaceOfWord(w[1..]);
    }
  }

  lemma {:induction false} NonSpaceOfSpace(a: string)
    requires AllSpace(a)
    ensures NonSpace(a) == []
  {
    if a != [] {
      NonSpaceOfSpace(a[1..]);
    }
  }

  /** The non-whitespace characters are the words run together. */
  lemma {:induction false} NonSpaceWords(s: string)
    ensures NonSpace(s) == Concat(Words(s))
    decreases |s|
  {
    var t := LStrip(s);
    NonSpaceLStrip(s);
    if t != [] {
      var n := WordEnd(t);
      NonSpaceWordThen(t);
      NonSpaceWords(t[n..]);
      assert Words(s) == [t[..n]] + Words(t[n..]);
      ConcatFront(t[..n], Words(t[n..]));
    }
  }

  lemma NonSpaceLStrip(s: string)
    ensures NonSpace(s) == NonSpace(LStrip(s))
  {
    var t := LStrip(s);
    LStripSuffix(s);
    var lead := s[..|s| - |t|];
    assert s == lead + t;
    NonSpaceAppend(lead, t);
    NonSpaceOfSpace(lead);
  }

  lemma NonSpaceWordThen(t: string)
    ensures NonSpace(t) == t[..WordEnd(t)] + NonSpace(t[WordEnd(t)..])
  {
    var n := WordEnd(t);
    assert t == t[..n] + t[n..];
    NonSpaceAppend(t[..n], t[n..]);
    NonSpaceOfWord(t[..n]);
  }

  lemma ConcatFront<T>(x: seq<T>, xs: seq<seq<T>>)
    ensures Concat([x] + xs) == x + Concat(xs)
  {
    ConcatAppend([x], xs);
    assert Concat([x]) == Concat([x][..0]) + x;
  }

  /** Non-empty pieces run together are at least as many characters as
      there are pieces. */
  lemma {:induction false} ConcatLength<T>(xss: seq<seq<T>>)
    requires forall i :: 0 <= i < |xss| ==> |xss[i]| > 0
    ensures |Concat(xss)| >= |xss|
  {
    if xss != [] {
      ConcatLength(xss[..|xss| - 1]);
    }
  }

  /** Joining words with spaces keeps their characters, in order. */
  lemma {:induction false} NonSpaceJoin(ws: seq<string>)
    requires forall i :: 0 <= i < |ws| ==> NoSpace(ws[i])
    ensures NonSpace(Join(ws, " ")) == Concat(ws)
  {
    if |ws| == 1 {
      NonSpaceOfWord(ws[0]);
      ConcatFront(ws[0], []);
      assert [ws[0]] + [] == ws;
    } else if |ws| > 1 {
      var w := ws[0];
      NonSpaceJoin(ws[1..]);
      NonSpaceAppend(w + " ", Join(ws[1..], " "));
      NonSpaceAppend(w, " ");
      NonSpaceOfWord(w);
      ConcatFront(w, ws[1..]);
      assert ws == [w] + ws[1..];
    }
  }

  /** `' '.join(s.split())` keeps every non-whitespace character, in
      order, and drops only whitespace. */
  lemma JoinWordsKeepsText(s: string)
    ensures NonSpace(JoinWords(s)) == NonSpace(s)
  {
    NonSpaceWords(s);
    NonSpaceJoin(Words(s));
  }

  /** `' '.join(s.split())` is single spaced. */
  lemma JoinWordsSingleSpaced(s: string)
    ensures SingleSpaced(JoinWords(s))
  {
    JoinSingleSpaced(Words(s));
  }

  /** Every character of words joined by single spaces is a space or a
      character of the text the words came from. */
  lemma {:induction false} JoinFrom(ws: seq<string>, s: string)
    requires forall i, k :: 0 <= i < |ws| && 0 <= k < |ws[i]| ==> ws[i][k] in s
    ensures forall k :: 0 <= k < |Join(ws, " ")| ==> Join(ws, " ")[k] == ' ' || Join(ws, " ")[k] in s
  {
    if |ws| > 1 {
      var tail := ws[1..];
      assert forall i, k :: 0 <= i < |tail| && 0 <= k < |tail[i]| ==> tail[i][k] == ws[i + 1][k];
      JoinFrom(tail, s);
      var rest := Join(tail, " ");
      var j := ws[0] + " " + rest;
      forall k | 0 <= k < |j| ensures j[k] == ' ' || j[k] in s {
        if k < |ws[0]| {
          assert j[k] == ws[0][k];
        } else if k > |ws[0]| {
          assert j[k] == rest[k - |ws[0]| - 1];
        }
      }
    }
  }

  /** `' '.join(s.split())` adds no character but the space. */
  lemma JoinWordsFrom(s: string)
    ensures forall k :: 0 <= k < |JoinWords(s)| ==> JoinWords(s)[k] == ' ' || JoinWords(s)[k] in s
  {
    WordsPart(s);
    JoinFrom(Words(s), s);
  }

  /** A left strip that keeps something of `x` leaves what follows `x`
      alone. */
  lemma {:induction false} LStripAppend(x: string, y: string)
    requires LStrip(x) != []
    ensures LStrip(x + y) == LStrip(x) + y
    decreases |x|
  {
    if IsSpace(x[0]) {
      assert (x + y)[1..] == x[1..] + y;
      LStripAppend(x[1..], y);
    }
  }

  /** Leading whitespace is stripped whatever follows it. */
  lemma {:induction false} LStripAfterSpace(a: string, y: string)
    requires AllSpace(a)
    ensures LStrip(a + y) == LStrip(y)
    decreases |a|
  {
    if a == [] {
      assert a + y == y;
    } else {
      assert (a + y)[1..] == a[1..] + y;
      LStripAfterSpace(a[1..], y);
    }
  }

  /** A word ends at the same place when whitespace or nothing follows. */
  lemma {:induction false} WordEndAppend(t: string, y: string)
    requires y == [] || IsSpace(y[0])
    ensures WordEnd(t + y) == WordEnd(t)
    decreases |t|
  {
    if t == [] {
      assert t + y == y;
    } else if !IsSpace(t[0]) {
      assert (t + y)[1..] == t[1..] + y;
      WordEndAppend(t[1..], y);
    }
  }

  /** Texts joined where whitespace begins split into the words of the
      first followed by the words of the second: no word runs across. */
  lemma {:induction false} WordsAppend(x: string, y: string)
    requires y == [] || IsSpace(y[0])
    ensures Words(x + y) == Words(x) + Words(y)
    decreases |x|
  {
    var t := LStrip(x);
    if t == [] {
      LStripAllSpace(x);
      LStripAfterSpace(x, y);
    } else {
      LStripAppend(x, y);
      var n := WordEnd(t);
      WordEndAppend(t, y);
      assert (t + y)[..n] == t[..n];
      assert (t + y)[n..] == t[n..] + y;
      WordsAppend(t[n..], y);
    }
  }

  /** Leading whitespace does not change the words. */
  lemma WordsAfterSpace(a: string, z: string)
    requires AllSpace(a)
    ensures Words(a + z) == Words(z)
  {
    LStripAfterSpace(a, z);
    WordsLStrip(a + z);
    WordsLStrip(z);
  }

  /** Deleting a character the text does not hold leaves the text. */
  lemma {:induction false} ReplaceAbsent(s: string, c: char)
    requires forall k :: 0 <= k < |s| ==> s[k] != c
    ensures ReplaceAll(s, [c], "") == s
    decreases |s|
  {
    if |s| >= 1 {
      assert !StartsWith(s, [c]) by {
        assert s[..1] == [s[0]];
      }
      ReplaceAbsent(s[1..], c);
      assert s == [s[0]] + s[1..];
    }
  }

  // ---------------------------------------------------------------------
  // Lines
  // ---------------------------------------------------------------------

  /** The text does not contain `c`. */
  predicate Lacks(s: string, c: char) {
    forall k :: 0 <= k < |s| ==> s[k] != c
  }

  /** The text contains no newline. */
  predicate OneLine(s: string) {
    Lacks(s, '\n')
  }

  /** The first `c` of `x + [c] + rest` is the one after `x`. */
  lemma FindSep(x: string, c: char, rest: string)
    requires Lacks(x, c)
    ensures Find(x + [c] + rest, [c]) == Some(|x|)
  {
    var s := x + [c] + rest;
    assert OccursAt(s, [c], |x|) by {
      assert s[|x|..|x| + 1] == [c];
    }
    forall j | 0 <= j < |x| ensures !OccursAt(s, [c], j) {
      assert s[j] == x[j];
      assert s[j..j + 1] == [s[j]];
    }
  }

  /** Splitting at `c` a text whose first piece is `x`. */
  lemma SplitAt(x: string, c: char, rest: string)
    requires Lacks(x, c)
    ensures Split(x + [c] + rest, [c]) == [x] + Split(rest, [c])
  {
    var s := x + [c] + rest;
    FindSep(x, c, rest);
    assert s[|x| + 1..] == rest;
    assert s[..|x|] == x;
  }

  /** A text without `c` splits into itself alone. */
  lemma SplitLacking(x: string, c: char)
    requires Lacks(x, c)
    ensures Split(x, [c]) == [x]
  {
    assert Find(x, [c]).None? by {
      forall j ensures !OccursAt(x, [c], j) {
        if 0 <= j < |x| {
          assert x[j..j + 1] == [x[j]];
        }
      }
    }
  }

  /** Splitting at newlines a text whose first line is `x`. */
  lemma SplitLine(x: string, rest: string)
    requires OneLine(x)
    ensures Split(x + "\n" + rest, "\n") == [x] + Split(rest, "\n")
  {
    SplitAt(x, '\n', rest);
  }

  /** Joining texts of one line each with newlines and splitting the
      result at newlines gives the texts back. */
  lemma {:induction false} JoinLinesSplit(ls: seq<string>)
    requires ls != []
    requires forall i :: 0 <= i < |ls| ==> OneLine(ls[i])
    ensures Split(Join(ls, "\n"), "\n") == ls
  {
    if |ls| == 1 {
      SplitLacking(ls[0], '\n');
    } else {
      JoinLinesSplit(ls[1..]);
      SplitLine(ls[0], Join(ls[1..], "\n"));
      assert ls == [ls[0]] + ls[1..];
    }
  }

  lemma OneLineConcat(a: string, b: string)
    requires OneLine(a) && OneLine(b)
    ensures OneLine(a + b)
  {
    forall k | 0 <= k < |a + b| ensures (a + b)[k] != '\n' {
      if k < |a| {
        assert (a + b)[k] == a[k];
      } else {
        assert (a + b)[k] == b[k - |a|];
      }
    }
  }

  /** Equal texts cut at the same place have equal parts. */
  lemma ConcatCancel(a: string, r: string, b: string, s: string)
    requires a + r == b + s && |a| == |b|
    ensures a == b && r == s
  {
    assert a == (a + r)[..|a|] && b == (b + s)[..|b|];
    assert r == (a + r)[|a|..] && s == (b + s)[|b|..];
  }

  /** In `x + [c] + s` with `c` absent from `x`, the first `c` sits
      right after `x`. */
  lemma MarkAfterHead(x: string, c: char, s: string)
    requires Lacks(x, c)
    ensures forall k :: 0 <= k <= |x| ==> ((x + [c] + s)[k] == c <==> k == |x|)
  {
    forall k | 0 <= k <= |x|
      ensures (x + [c] + s)[k] == c <==> k == |x|
    {
      if k < |x| {
        assert (x + [c] + s)[k] == x[k];
      }
    }
  }

  /** Two texts cut at their first `c`: when neither head holds `c`, the
      heads agree and so do the tails. */
  lemma CutAtFirst(x: string, s: string, y: string, t: string, c: char)
    requires Lacks(x, c) && Lacks(y, c)
    requires x + [c] + s == y + [c] + t
    ensures x == y && s == t
  {
    MarkAfterHead(x, c, s);
    MarkAfterHead(y, c, t);
    var m := if |x| < |y| then |x| else |y|;
    assert (x + [c] + s)[m] == c;
    ConcatCancel(x + [c], s, y + [c], t);
    ConcatCancel(x, [c], y, [c]);
  }

  // ---------------------------------------------------------------------
  // Mapping every element
  // ---------------------------------------------------------------------

  /** `[f(x) for x in xs]`, built from the front. */
  function MapEach<A, B>(f: A -> B, xs: seq<A>): (r: seq<B>)
    ensures |r| == |xs|
  {
    if xs == [] then [] else MapEach(f, xs[..|xs| - 1]) + [f(xs[|xs| - 1])]
  }

  /** The i-th element of the mapped list is `f` of the i-th element. */
  lemma {:induction false} MapEachAt<A, B>(f: A -> B, xs: seq<A>)
    ensures forall i :: 0 <= i < |xs| ==> MapEach(f, xs)[i] == f(xs[i])
  {
    if xs != [] {
      var n := |xs| - 1;
      MapEachAt(f, xs[..n]);
      forall i | 0 <= i < n ensures MapEach(f, xs)[i] == f(xs[i]) {
        assert xs[..n][i] == xs[i];
      }
    }
  }

  // ---------------------------------------------------------------------
  // Updating every element
  // ---------------------------------------------------------------------

  /** `for x in xs: update(x)` where an update may raise: every element
      updated in order, or None when one of them raises. */
  function MapAll<T>(f: T -> Option<T>, xs: seq<T>): Option<seq<T>> {
    if xs == [] then Some([])
    else
      match MapAll(f, xs[..|xs| - 1])
      case None => None
      case Some(done) =>
        match f(xs[|xs| - 1])
        case None => None
        case Some(y) => Some(done + [y])
  }

  /** The loop gets through exactly when no element raises. */
  lemma {:induction false} MapAllSome<T>(f: T -> Option<T>, xs: seq<T>)
    ensures MapAll(f, xs).Some? <==> forall i :: 0 <= i < |xs| ==> f(xs[i]).Some?
  {
    if xs != [] {
      var n := |xs| - 1;
      MapAllSome(f, xs[..n]);
      assert forall i :: 0 <= i < n ==> xs[..n][i] == xs[i];
    }
  }

  /** One more step of a loop that updates `ys`, a copy of `xs`, in place:
      the first i + 1 elements are updated and the rest still as they were. */
  lemma MapAllStep<T>(f: T -> Option<T>, xs: seq<T>, ys: seq<T>, i: nat)
    requires i < |xs| == |ys| && ys[i..] == xs[i..]
    requires MapAll(f, xs[..i]) == Some(ys[..i]) && f(xs[i]).Some?
    ensures ys[i := f(xs[i]).value][i + 1..] == xs[i + 1..]
    ensures MapAll(f, xs[..i + 1]) == Some(ys[i := f(xs[i]).value][..i + 1])
  {
    assert xs[..i + 1][..i] == xs[..i];
    var zs := ys[i := f(xs[i]).value];
    assert zs[..i + 1] == ys[..i] + [f(xs[i]).value];
    assert forall k :: i + 1 <= k < |xs| ==> zs[k] == ys[k] == xs[k];
  }

  /** An element that raises stops the whole loop. */
  lemma MapAllStops<T>(f: T -> Option<T>, xs: seq<T>, i: nat)
    requires i < |xs| && f(xs[i]).None?
    ensures MapAll(f, xs).None?
  {
    MapAllSome(f, xs);
  }

  /** When it gets through, element i is the update of element i. */
  lemma {:induction false} MapAllEntries<T>(f: T -> Option<T>, xs: seq<T>)
    requires MapAll(f, xs).Some?
    ensures |MapAll(f, xs).value| == |xs|
    ensures forall i :: 0 <= i < |xs| ==> f(xs[i]).Some? && MapAll(f, xs).value[i] == f(xs[i]).value
  {
    if xs != [] {
      var n := |xs| - 1;
      MapAllEntries(f, xs[..n]);
      assert forall i :: 0 <= i < n ==> xs[..n][i] == xs[i];
    }
  }

  /** An idempotent update applied to every element is idempotent. */
  lemma {:induction false} MapAllIdempotent<T>(f: T -> Option<T>, xs: seq<T>)
    requires MapAll(f, xs).Some?
    requires forall x :: f(x).Some? ==> f(f(x).value) == f(x)
    ensures MapAll(f, MapAll(f, xs).value) == MapAll(f, xs)
  {
    if xs != [] {
      var n := |xs| - 1;
      MapAllIdempotent(f, xs[..n]);
      MapAllEntries(f, xs[..n]);
      var r := MapAll(f, xs).value;
      var done := MapAll(f, xs[..n]).value;
      assert r == done + [f(xs[n]).value];
      assert r[..n] == done;
    }
  }
}
