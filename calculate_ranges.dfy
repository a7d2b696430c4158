/** scripts/calculate_ranges.py: the planner that queries the result count
    of every year, groups consecutive years greedily into ranges whose
    counts stay under a budget, and compares each range's summed count with
    the count the engine reports for the whole range. The requests are an
    oracle from the queried years to the text the count patterns captured;
    the clock and the random delay are passed in. */
module CalculateRanges {
  import opened Common
  import opened ScrapeAsync
  import UpdateCurrentYear

  const RANGE_DELAY_MIN: int := 5
  const RANGE_DELAY_MAX: int := 10
  const DEFAULT_START_YEAR: int := 1970
  const DEFAULT_END_YEAR: int := 2023
  const DEFAULT_MAX_RESULTS: int := 800
  /** A range is confirmed when the reported count is within this of the sum. */
  const TOLERANCE: int := 50

  // ---------------------------------------------------------------------
  // RateLimiter (the semaphore and the lock are left out)
  // ---------------------------------------------------------------------

  class RateLimiter {
    const delayMin: int
    const delayMax: int
    var lastRequestTime: int

    constructor(delayMin: int, delayMax: int)
      ensures this.delayMin == delayMin && this.delayMax == delayMax && lastRequestTime == 0
    {
      this.delayMin := delayMin;
      this.delayMax := delayMax;
      lastRequestTime := 0;
    }

    /** acquire at clock reading `now` with `draw` the value of
        `randbelow(delay_max - delay_min + 1)`: the delay chosen lies in
        [delay_min, delay_max] and is returned; the caller sleeps out what
        is left of it since the previous request, and the time after the
        sleep is recorded. */
    method Acquire(draw: nat, now: int) returns (delay: int, wait: int)
      requires draw < delayMax - delayMin + 1
      modifies this
      ensures delayMin <= delay <= delayMax
      ensures wait >= 0 && lastRequestTime == now + wait
      ensures lastRequestTime >= old(lastRequestTime) + delay
      ensures wait > 0 ==> lastRequestTime == old(lastRequestTime) + delay
    {
      delay := delayMin + draw;
      var timeSinceLast := now - lastRequestTime;
      wait := 0;
      if timeSinceLast < delay {
        wait := delay - timeSinceLast;
      }
      lastRequestTime := now + wait;
    }
  }

  // ---------------------------------------------------------------------
  // Counts
  // ---------------------------------------------------------------------

  /** get_total_results: 429 gives None, as does any raised error; any
      other status is parsed: the "Page X of Y results" group, failing that
      the "About X results" group with commas removed, read with int(). */
  function RangeTotal(p: UpdateCurrentYear.TotalProbe): (t: Option<int>)
    ensures t.Some? ==> p.Probe? && p.status != 429
    ensures p.Probe? && p.status != 429 && p.pageGroup.Some? && AllDigits(p.pageGroup.value) ==>
      t == Some(DigitsValue(p.pageGroup.value))
  {
    match p
    case ProbeFailed => None
    case Probe(status, pageGroup, aboutGroup) =>
      if status == 429 then None
      else if pageGroup.Some? && AllDigits(pageGroup.value) then
        TotalFromPageGroup(pageGroup.value);
        TotalFromCaptures(pageGroup, aboutGroup)
      else TotalFromCaptures(pageGroup, aboutGroup)
  }

  /** `total if total else 0`: a missing or zero total is recorded as 0. */
  function CountOf(total: Option<int>): (c: int)
    ensures c == 0 <==> total.None? || total.value == 0
    ensures c != 0 ==> total == Some(c)
  {
    if total.Some? && total.value != 0 then total.value else 0
  }

  /** Every character of `s` is a decimal digit. */
  predicate DigitsOnly(s: string) {
    forall i :: 0 <= i < |s| ==> IsDigit(s[i])
  }

  /** Removing the commas from digits and commas leaves digits. */
  lemma {:induction false} DropCommasDigits(s: string)
    requires forall i :: 0 <= i < |s| ==> IsDigit(s[i]) || s[i] == ','
    ensures DigitsOnly(ReplaceAll(s, ",", ""))
    decreases |s|
  {
    if |s| >= 1 {
      assert forall i :: 0 <= i < |s[1..]| ==> s[1..][i] == s[i + 1];
      DropCommasDigits(s[1..]);
      var rest := ReplaceAll(s[1..], ",", "");
      if StartsWith(s, ",") {
        assert ReplaceAll(s, ",", "") == "" + rest;
      } else {
        assert s[..1] == [s[0]];
        assert ReplaceAll(s, ",", "") == [s[0]] + rest;
      }
    }
  }

  /** int() of digits is their value or, for no digits, raises. */
  lemma PyIntOfDigits(s: string)
    requires DigitsOnly(s)
    ensures PyInt(s) == (if s == [] then None else Some(DigitsValue(s) as int))
  {
    if s != [] {
      PyIntOfDigitString(s);
    } else {
      StripFixed(s);
    }
  }

  /** The patterns capture digits (and commas for "About"), so a count is
      never negative. */
  lemma CountNonNegative(p: UpdateCurrentYear.TotalProbe)
    requires p.Probe? && p.pageGroup.Some? ==> AllDigits(p.pageGroup.value)
    requires p.Probe? && p.aboutGroup.Some? ==>
      forall i :: 0 <= i < |p.aboutGroup.value| ==> IsDigit(p.aboutGroup.value[i]) || p.aboutGroup.value[i] == ','
    ensures CountOf(RangeTotal(p)) >= 0
  {
    if p.Probe? && p.status != 429 && p.pageGroup.None? && p.aboutGroup.Some? {
      var digits := ReplaceAll(p.aboutGroup.value, ",", "");
      DropCommasDigits(p.aboutGroup.value);
      PyIntOfDigits(digits);
    }
  }

  // ---------------------------------------------------------------------
  // Grouping years into ranges
  // ---------------------------------------------------------------------

  /** A range of years, both ends included. */
  datatype YearRange = YearRange(first: int, last: int)

  /** The grouping loop's state: the closed ranges, the first year of the
      open range and the running total of the open range. */
  datatype Grouping = Grouping(ranges: seq<YearRange>, currentStart: int, currentTotal: int)

  /** The grouping state after the first `n` years, where `counts[i]` is
      the count of year `start + i`: a year whose count would push a
      positive running total above `max` closes the open range before it
      and opens a new one; any other year joins the open range. */
  function GroupAfter(counts: seq<int>, start: int, max: int, n: nat): Grouping
    requires n <= |counts|
  {
    if n == 0 then Grouping([], start, 0)
    else Advance(counts, start, max, GroupAfter(counts, start, max, n - 1), n - 1)
  }

  /** One iteration of the grouping loop, for year `start + i`. */
  function Advance(counts: seq<int>, start: int, max: int, g: Grouping, i: nat): Grouping
    requires i < |counts|
  {
    var year := start + i;
    var yearCount := counts[i];
    if g.currentTotal + yearCount > max && g.currentTotal > 0 then
      Grouping(g.ranges + [YearRange(g.currentStart, year - 1)], year, yearCount)
    else Grouping(g.ranges, g.currentStart, g.currentTotal + yearCount)
  }

  /** The ranges of calculate_ranges: the closed ranges, then the open
      range up to the last year when it is not empty. */
  function GroupRanges(counts: seq<int>, start: int, max: int): seq<YearRange> {
    var g := GroupAfter(counts, start, max, |counts|);
    var end := start + |counts| - 1;
    if g.currentStart <= end then g.ranges + [YearRange(g.currentStart, end)] else g.ranges
  }

  /** `rs` are non-empty ranges that follow each other without gap or
      overlap and together cover exactly the years lo .. hi - 1. */
  predicate Tiles(rs: seq<YearRange>, lo: int, hi: int) {
    (rs == [] ==> hi == lo) &&
    (rs != [] ==> rs[0].first == lo && rs[|rs| - 1].last + 1 == hi) &&
    (forall k :: 0 <= k < |rs| ==> rs[k].first <= rs[k].last) &&
    (forall k :: 0 <= k < |rs| - 1 ==> Adjacent(rs, k))
  }

  /** Range k + 1 starts the year after range k ends. */
  predicate Adjacent(rs: seq<YearRange>, k: int)
    requires 0 <= k < |rs| - 1
  {
    rs[k + 1].first == rs[k].last + 1
  }

  /** The recursive form of `Tiles` that the grouping loop extends: the
      last range is non-empty and ends at hi - 1, and the ranges before it
      tile lo .. (its first year) - 1. */
  predicate Chained(rs: seq<YearRange>, lo: int, hi: int) {
    if rs == [] then hi == lo
    else
      var r := rs[|rs| - 1];
      r.first <= r.last && r.last + 1 == hi && Chained(rs[..|rs| - 1], lo, r.first)
  }

  /** Appending a non-empty range that starts where the chain ends extends it. */
  lemma ChainedSnoc(rs: seq<YearRange>, lo: int, r: YearRange)
    requires Chained(rs, lo, r.first) && r.first <= r.last
    ensures Chained(rs + [r], lo, r.last + 1)
  {
    assert (rs + [r])[..|rs|] == rs;
  }

  /** A chain tiles its years; its ranges lie within them and ascend. */
  lemma {:induction false} ChainedTiles(rs: seq<YearRange>, lo: int, hi: int)
    requires Chained(rs, lo, hi)
    ensures Tiles(rs, lo, hi)
    ensures forall k :: 0 <= k < |rs| ==> lo <= rs[k].first <= rs[k].last < hi
    ensures forall k, l :: 0 <= k < l < |rs| ==> rs[k].last < rs[l].first
  {
    if rs != [] {
      var n := |rs| - 1;
      var p := rs[..n];
      ChainedTiles(p, lo, rs[n].first);
      assert forall k :: 0 <= k < n ==> p[k] == rs[k];
      forall k | 0 <= k < n - 1 ensures Adjacent(rs, k) {
        assert Adjacent(p, k);
      }
      if n > 0 {
        assert Adjacent(rs, n - 1);
      }
    }
  }

  /** The range lies within the surveyed years. */
  predicate InYears(counts: seq<int>, start: int, r: YearRange) {
    start <= r.first <= r.last < start + |counts|
  }

  /** The counts of the years of `r`, in year order. */
  function RangeCounts(counts: seq<int>, start: int, r: YearRange): seq<int>
    requires InYears(counts, start, r)
  {
    counts[r.first - start .. r.last - start + 1]
  }

  /** `sum(year_counts[y] for y in range(start, end + 1))`. */
  function RangeSum(counts: seq<int>, start: int, r: YearRange): int
    requires InYears(counts, start, r)
  {
    Sum(RangeCounts(counts, start, r))
  }

  /** No year of `w` after the first met the closing condition when it was
      added: the running total was not positive, or adding the year kept it
      within `max`. */
  predicate Open(w: seq<int>, max: int) {
    forall j :: 0 <= j < |w| ==> !ClosesAt(w, j, max)
  }

  /** Year `j` of `w` met the closing condition: the running total of the
      years before it is positive and adding it exceeds `max`. */
  predicate ClosesAt(w: seq<int>, j: int, max: int)
    requires 0 <= j < |w|
  {
    Sum(w[..j]) + w[j] > max && Sum(w[..j]) > 0
  }

  /** The closing condition for the year after `w`. */
  predicate Closes(w: seq<int>, next: int, max: int) {
    Sum(w) + next > max && Sum(w) > 0
  }

  /** A closed range: inside the years, never met the closing condition
      inside, and met it for the year after it. */
  predicate ClosedRange(counts: seq<int>, start: int, max: int, r: YearRange) {
    InYears(counts, start, r) && r.last + 1 < start + |counts| &&
    Open(RangeCounts(counts, start, r), max) &&
    Closes(RangeCounts(counts, start, r), counts[r.last + 1 - start], max)
  }

  /** The loop invariant of the grouping loop after `n` years. */
  predicate GroupInv(counts: seq<int>, start: int, max: int, n: nat, g: Grouping)
    requires n <= |counts|
  {
    OpenInv(counts, start, max, n, g.currentStart, g.currentTotal) &&
    Chained(g.ranges, start, g.currentStart) &&
    AllClosed(counts, start, max, g.ranges)
  }

  /** The open range starts at `cs`, has seen a year unless no year has
      been seen, its running total is `total`, and it is open. */
  predicate OpenInv(counts: seq<int>, start: int, max: int, n: nat, cs: int, total: int)
    requires n <= |counts|
  {
    start <= cs <= start + n &&
    (n > 0 ==> cs < start + n) &&
    total == Sum(counts[cs - start .. n]) &&
    Open(counts[cs - start .. n], max)
  }

  /** Every range of `rs` is a closed range. */
  predicate AllClosed(counts: seq<int>, start: int, max: int, rs: seq<YearRange>) {
    rs == [] ||
    (AllClosed(counts, start, max, rs[..|rs| - 1]) && ClosedRange(counts, start, max, rs[|rs| - 1]))
  }

  lemma {:induction false} AllClosedAt(counts: seq<int>, start: int, max: int, rs: seq<YearRange>)
    requires AllClosed(counts, start, max, rs)
    ensures forall k :: 0 <= k < |rs| ==> ClosedRange(counts, start, max, rs[k])
  {
    if rs != [] {
      var n := |rs| - 1;
      AllClosedAt(counts, start, max, rs[..n]);
      assert forall k :: 0 <= k < n ==> rs[..n][k] == rs[k];
    }
  }

  lemma SumSnoc(w: seq<int>, x: int)
    ensures Sum(w + [x]) == Sum(w) + x
  {
    assert (w + [x])[..|w|] == w;
  }

  /** A year that does not meet the closing condition keeps the range open. */
  lemma OpenExtend(w: seq<int>, x: int, max: int)
    requires Open(w, max) && !(Sum(w) + x > max && Sum(w) > 0)
    ensures Open(w + [x], max)
  {
    forall j | 0 <= j < |w + [x]| ensures !ClosesAt(w + [x], j, max) {
      if j < |w| {
        assert (w + [x])[..j] == w[..j] && (w + [x])[j] == w[j];
        assert !ClosesAt(w, j, max);
      } else {
        assert (w + [x])[..j] == w && (w + [x])[j] == x;
      }
    }
  }

  /** A year that closes the open range leaves a closed range before it
      and opens a new range at itself. */
  lemma CloseKeeps(counts: seq<int>, start: int, max: int, cs: int, total: int, i: nat)
    requires i < |counts| && OpenInv(counts, start, max, i, cs, total)
    requires total + counts[i] > max && total > 0
    ensures cs <= start + i - 1
    ensures ClosedRange(counts, start, max, YearRange(cs, start + i - 1))
    ensures OpenInv(counts, start, max, i + 1, start + i, counts[i])
  {
    var w := counts[cs - start .. i];
    var c := counts[i];
    var r := YearRange(cs, start + i - 1);
    assert RangeCounts(counts, start, r) == w;
    assert counts[i .. i + 1] == [] + [c];
    SumSnoc([], c);
    OpenExtend([], c, max);
  }

  /** A year that joins the open range keeps it open and adds to its total. */
  lemma JoinKeeps(counts: seq<int>, start: int, max: int, cs: int, total: int, i: nat)
    requires i < |counts| && OpenInv(counts, start, max, i, cs, total)
    requires !(total + counts[i] > max && total > 0)
    ensures OpenInv(counts, start, max, i + 1, cs, total + counts[i])
  {
    var w := counts[cs - start .. i];
    var c := counts[i];
    assert counts[cs - start .. i + 1] == w + [c];
    SumSnoc(w, c);
    OpenExtend(w, c, max);
  }

  /** The running total is the sum of the open range's counts, the closed
      ranges tile the years before the open range, and each closed range
      met the closing condition only at the year after it. */
  lemma {:induction false} GroupInvariant(counts: seq<int>, start: int, max: int, n: nat)
    requires n <= |counts|
    ensures GroupInv(counts, start, max, n, GroupAfter(counts, start, max, n))
  {
    if n > 0 {
      GroupInvariant(counts, start, max, n - 1);
      var g := GroupAfter(counts, start, max, n - 1);
      StepKeeps(counts, start, max, g, n - 1);
      assert GroupAfter(counts, start, max, n) == Advance(counts, start, max, g, n - 1);
    }
  }

  /** After at least one year, the open range starts at a year already seen. */
  lemma {:induction false} OpenStart(counts: seq<int>, start: int, max: int, n: nat)
    requires n <= |counts|
    ensures var g := GroupAfter(counts, start, max, n);
      start <= g.currentStart <= start + n && (n > 0 ==> g.currentStart < start + n)
  {
    if n > 0 {
      OpenStart(counts, start, max, n - 1);
    }
  }

  /** Either kind of year keeps the invariant. */
  lemma StepKeeps(counts: seq<int>, start: int, max: int, g: Grouping, i: nat)
    requires i < |counts| && GroupInv(counts, start, max, i, g)
    ensures GroupInv(counts, start, max, i + 1, Advance(counts, start, max, g, i))
  {
    if g.currentTotal + counts[i] > max && g.currentTotal > 0 {
      CloseStep(counts, start, max, g, i);
    } else {
      JoinStep(counts, start, max, g, i);
    }
  }

  lemma CloseStep(counts: seq<int>, start: int, max: int, g: Grouping, i: nat)
    requires i < |counts| && GroupInv(counts, start, max, i, g)
    requires g.currentTotal + counts[i] > max && g.currentTotal > 0
    ensures GroupInv(counts, start, max, i + 1,
      Grouping(g.ranges + [YearRange(g.currentStart, start + i - 1)], start + i, counts[i]))
  {
    CloseKeeps(counts, start, max, g.currentStart, g.currentTotal, i);
    var r := YearRange(g.currentStart, start + i - 1);
    ChainedSnoc(g.ranges, start, r);
    assert (g.ranges + [r])[..|g.ranges|] == g.ranges;
  }

  lemma JoinStep(counts: seq<int>, start: int, max: int, g: Grouping, i: nat)
    requires i < |counts| && GroupInv(counts, start, max, i, g)
    requires !(g.currentTotal + counts[i] > max && g.currentTotal > 0)
    ensures GroupInv(counts, start, max, i + 1, g.(currentTotal := g.currentTotal + counts[i]))
  {
    JoinKeeps(counts, start, max, g.currentStart, g.currentTotal, i);
  }

  /** The closed ranges chain from the first year to the open range. */
  lemma GroupChained(counts: seq<int>, start: int, max: int, n: nat)
    requires n <= |counts|
    ensures var g := GroupAfter(counts, start, max, n);
      Chained(g.ranges, start, g.currentStart)
  {
    GroupInvariant(counts, start, max, n);
  }

  /** The ranges cover start .. end exactly, in ascending order, without
      gaps or overlaps; no years (start > end) gives no ranges. */
  lemma GroupRangesTile(counts: seq<int>, start: int, max: int)
    ensures |counts| == 0 ==> GroupRanges(counts, start, max) == []
    ensures |counts| > 0 ==> Tiles(GroupRanges(counts, start, max), start, start + |counts|)
    ensures forall k :: 0 <= k < |GroupRanges(counts, start, max)| ==> InYears(counts, start, GroupRanges(counts, start, max)[k])
  {
    var n := |counts|;
    var g := GroupAfter(counts, start, max, n);
    var rs := GroupRanges(counts, start, max);
    var last := YearRange(g.currentStart, start + n - 1);
    OpenStart(counts, start, max, n);
    assert n > 0 ==> rs == g.ranges + [last];
    GroupChained(counts, start, max, n);
    if n > 0 {
      ChainedSnoc(g.ranges, start, last);
      ChainedTiles(rs, start, start + n);
    }
  }

  /** Every range but the last was closed because its positive total plus
      the next year's count exceeds `max`; no range met that condition at
      any of its own years after the first. */
  lemma GroupRangesClose(counts: seq<int>, start: int, max: int)
    ensures var rs := GroupRanges(counts, start, max);
      forall k :: 0 <= k < |rs| - 1 ==> ClosedRange(counts, start, max, rs[k])
    ensures var rs := GroupRanges(counts, start, max);
      forall k :: 0 <= k < |rs| ==> InYears(counts, start, rs[k]) && Open(RangeCounts(counts, start, rs[k]), max)
  {
    var n := |counts|;
    GroupInvariant(counts, start, max, n);
    GroupRangesTile(counts, start, max);
    var g := GroupAfter(counts, start, max, n);
    var rs := GroupRanges(counts, start, max);
    AllClosedAt(counts, start, max, g.ranges);
    if n > 0 {
      var last := YearRange(g.currentStart, start + n - 1);
      assert rs == g.ranges + [last];
      assert RangeCounts(counts, start, last) == counts[g.currentStart - start .. n];
      assert forall k :: 0 <= k < |g.ranges| ==> rs[k] == g.ranges[k];
    }
  }

  /** Number of non-zero counts. */
  function NonZero(w: seq<int>): nat {
    if w == [] then 0 else NonZero(w[..|w| - 1]) + (if w[|w| - 1] != 0 then 1 else 0)
  }

  lemma {:induction false} NoNonZeroSumsZero(w: seq<int>)
    requires NonZero(w) == 0
    ensures Sum(w) == 0
  {
    if w != [] {
      NoNonZeroSumsZero(w[..|w| - 1]);
    }
  }

  lemma {:induction false} NonZeroSumsPositive(w: seq<int>)
    requires forall i :: 0 <= i < |w| ==> w[i] >= 0
    requires NonZero(w) >= 1
    ensures Sum(w) > 0
  {
    var n := |w| - 1;
    assert forall i :: 0 <= i < n ==> w[..n][i] == w[i];
    if NonZero(w[..n]) >= 1 {
      NonZeroSumsPositive(w[..n]);
    } else {
      NoNonZeroSumsZero(w[..n]);
    }
  }

  /** With non-negative counts, a range that never met the closing
      condition exceeds `max` only when at most one of its years has a
      non-zero count. */
  lemma {:induction false} OpenBound(w: seq<int>, max: int)
    requires forall i :: 0 <= i < |w| ==> w[i] >= 0
    requires Open(w, max)
    ensures Sum(w) > max ==> NonZero(w) <= 1
  {
    if w != [] {
      var n := |w| - 1;
      var p := w[..n];
      assert Open(p, max) by {
        forall j | 0 <= j < |p| ensures !ClosesAt(p, j, max) {
          assert p[..j] == w[..j] && p[j] == w[j];
          assert !ClosesAt(w, j, max);
        }
      }
      assert forall i :: 0 <= i < |p| ==> p[i] == w[i];
      OpenBound(p, max);
      assert !ClosesAt(w, n, max);
      assert w[..n] == p;
      if w[n] != 0 && NonZero(p) >= 1 {
        NonZeroSumsPositive(p);
      }
    }
  }

  /** With non-negative counts, a range sums to more than `max` only when
      a single year in it has a non-zero count (with a negative `max`, an
      all-zero range also exceeds it). */
  lemma GroupRangesBound(counts: seq<int>, start: int, max: int)
    requires forall i :: 0 <= i < |counts| ==> counts[i] >= 0
    ensures var rs := GroupRanges(counts, start, max);
      forall k :: 0 <= k < |rs| ==>
        InYears(counts, start, rs[k]) &&
        (RangeSum(counts, start, rs[k]) > max ==> NonZero(RangeCounts(counts, start, rs[k])) <= 1) &&
        (max >= 0 && RangeSum(counts, start, rs[k]) > max ==> NonZero(RangeCounts(counts, start, rs[k])) == 1)
  {
    GroupRangesClose(counts, start, max);
    var rs := GroupRanges(counts, start, max);
    forall k | 0 <= k < |rs|
      ensures InYears(counts, start, rs[k]) &&
        (RangeSum(counts, start, rs[k]) > max ==> NonZero(RangeCounts(counts, start, rs[k])) <= 1) &&
        (max >= 0 && RangeSum(counts, start, rs[k]) > max ==> NonZero(RangeCounts(counts, start, rs[k])) == 1)
    {
      var w := RangeCounts(counts, start, rs[k]);
      assert forall i :: 0 <= i < |w| ==> w[i] == counts[rs[k].first - start + i];
      OpenBound(w, max);
      if NonZero(w) == 0 {
        NoNonZeroSumsZero(w);
      }
    }
  }

  /** The grouping loop of calculate_ranges over the counts of years
      start .. start + |counts| - 1. */
  method GroupYears(counts: seq<int>, start: int, max: int) returns (ranges: seq<YearRange>)
    ensures ranges == GroupRanges(counts, start, max)
  {
    var endYear := start + |counts| - 1;
    ranges := [];
    var currentStart := start;
    var currentTotal := 0;
    for year := start to endYear + 1
      invariant Grouping(ranges, currentStart, currentTotal) == GroupAfter(counts, start, max, year - start)
    {
      var yearCount := counts[year - start];
      if currentTotal + yearCount > max && currentTotal > 0 {
        ranges := ranges + [YearRange(currentStart, year - 1)];
        currentStart := year;
        currentTotal := yearCount;
      } else {
        currentTotal := currentTotal + yearCount;
      }
    }
    if currentStart <= endYear {
      ranges := ranges + [YearRange(currentStart, endYear)];
    }
  }

  // ---------------------------------------------------------------------
  // Verification against range queries
  // ---------------------------------------------------------------------

  datatype Verdict =
    | Unverified(range: YearRange, calculated: int)
    | Checked(range: YearRange, actual: int, calculated: int, confirmed: bool)

  /** The check of one range: a missing or zero reported count cannot
      verify it; otherwise it is confirmed iff the reported and the summed
      counts differ by less than the tolerance. */
  function Check(r: YearRange, actual: Option<int>, calculated: int): (v: Verdict)
    ensures v.range == r && v.calculated == calculated
    ensures v.Checked? <==> actual.Some? && actual.value != 0
    ensures v.Checked? ==> v.actual == actual.value
    ensures v.Checked? ==> (v.confirmed <==> -TOLERANCE < actual.value - calculated < TOLERANCE)
  {
    if actual.Some? && actual.value != 0 then
      var diff := if actual.value - calculated >= 0 then actual.value - calculated else calculated - actual.value;
      Checked(r, actual.value, calculated, diff < TOLERANCE)
    else Unverified(r, calculated)
  }

  /** The per-year query loop: `year_counts[year] = total if total else 0`
      for every year from start_year to end_year. */
  method YearCounts(startYear: int, endYear: int, probeYear: int -> UpdateCurrentYear.TotalProbe)
    returns (counts: seq<int>)
    ensures |counts| == Max(endYear - startYear + 1, 0)
    ensures forall i :: 0 <= i < |counts| ==> counts[i] == CountOf(RangeTotal(probeYear(startYear + i)))
  {
    counts := [];
    for i := 0 to Max(endYear - startYear + 1, 0)
      invariant |counts| == i
      invariant forall j :: 0 <= j < i ==> counts[j] == CountOf(RangeTotal(probeYear(startYear + j)))
    {
      var total := RangeTotal(probeYear(startYear + i));
      counts := counts + [if total.Some? && total.value != 0 then total.value else 0];
    }
  }

  /** The verification loop: query each range and check it. */
  method CheckRanges(counts: seq<int>, startYear: int, ranges: seq<YearRange>,
                     probeRange: (int, int) -> UpdateCurrentYear.TotalProbe)
    returns (verdicts: seq<Verdict>)
    requires forall k :: 0 <= k < |ranges| ==> InYears(counts, startYear, ranges[k])
    ensures |verdicts| == |ranges|
    ensures forall k :: 0 <= k < |ranges| ==>
      verdicts[k] == Check(ranges[k], RangeTotal(probeRange(ranges[k].first, ranges[k].last)),
                           RangeSum(counts, startYear, ranges[k]))
  {
    verdicts := [];
    for k := 0 to |ranges|
      invariant |verdicts| == k
      invariant forall j :: 0 <= j < k ==>
        verdicts[j] == Check(ranges[j], RangeTotal(probeRange(ranges[j].first, ranges[j].last)),
                             RangeSum(counts, startYear, ranges[j]))
    {
      var r := ranges[k];
      var actual := RangeTotal(probeRange(r.first, r.last));
      var calculated := RangeSum(counts, startYear, r);
      verdicts := verdicts + [Check(r, actual, calculated)];
    }
  }

  /** calculate_ranges: query every year from start_year to end_year, group
      the years, then query every range and check it against its summed
      count. `probeYear(y)` is what the query for year `y` captured,
      `probeRange(a, b)` what the query for years a .. b captured. */
  method CalculateRangesPlan(startYear: int, endYear: int, maxResultsPerRange: int,
                             probeYear: int -> UpdateCurrentYear.TotalProbe,
                             probeRange: (int, int) -> UpdateCurrentYear.TotalProbe)
    returns (counts: seq<int>, ranges: seq<YearRange>, verdicts: seq<Verdict>)
    ensures |counts| == Max(endYear - startYear + 1, 0)
    ensures forall i :: 0 <= i < |counts| ==> counts[i] == CountOf(RangeTotal(probeYear(startYear + i)))
    ensures ranges == GroupRanges(counts, startYear, maxResultsPerRange)
    ensures |verdicts| == |ranges|
    ensures forall k :: 0 <= k < |ranges| ==> InYears(counts, startYear, ranges[k])
    ensures forall k :: 0 <= k < |ranges| ==>
      verdicts[k] == Check(ranges[k], RangeTotal(probeRange(ranges[k].first, ranges[k].last)),
                           RangeSum(counts, startYear, ranges[k]))
  {
    counts := YearCounts(startYear, endYear, probeYear);
    ranges := GroupYears(counts, startYear, maxResultsPerRange);
    GroupRangesTile(counts, startYear, maxResultsPerRange);
    verdicts := CheckRanges(counts, startYear, ranges, probeRange);
  }
}
