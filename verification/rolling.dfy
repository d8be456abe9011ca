/**
 * `StdDevProcessor._compute_group_stdev`: for one security's rows, sorted by
 * `snap_time`, a 20-row rolling sample statistic of `bid`, `mid` and `ask`,
 * kept only where the 20 rows are exactly one hour apart, and an optional
 * `gap_blocked` diagnostic.
 *
 * The statistic is the sample variance (n - 1 denominator) over `real`; the
 * square root that turns it into a standard deviation is left out.
 */
module Rolling {
  import opened Wrappers
  import opened Ordering
  import opened Table

  /** One hour in seconds: the only step that counts as contiguous. */
  const Hour := 3600
  /** Rows in a statistic window, and the rows it needs present (`rolling(20, min_periods=20)`). */
  const Span := 20
  /** Hourly steps a window needs (`rolling(19, min_periods=19).sum().eq(19)`). */
  const Steps := 19

  /** One quote snapshot; a `snap_time` that failed to parse and missing quotes are null. */
  datatype Snap = Snap(security: string, time: Option<int>, bid: Option<real>, mid: Option<real>, ask: Option<real>)

  datatype Column = Bid | Mid | Ask

  /** A snapshot with the three statistic columns and, when asked for, `gap_blocked`. */
  datatype StdevRow = StdevRow(snap: Snap, bidStdev: Option<real>, midStdev: Option<real>, askStdev: Option<real>,
                               gapBlocked: Option<bool>)

  /** `sort_values("snap_time")`: null times last. */
  function TimeKey(s: Snap): Key {
    [Stamp(s.time)]
  }

  function Times(g: seq<Snap>): seq<Option<int>> {
    seq(|g|, i requires 0 <= i < |g| => g[i].time)
  }

  function ValueOf(s: Snap, c: Column): Option<real> {
    match c
    case Bid => s.bid
    case Mid => s.mid
    case Ask => s.ask
  }

  function Values(g: seq<Snap>, c: Column): seq<Option<real>> {
    seq(|g|, i requires 0 <= i < |g| => ValueOf(g[i], c))
  }

  // ---------------------------------------------------------------------
  // Contiguity (lines 44-47)
  // ---------------------------------------------------------------------

  /** `diff()` of the time column: null on the first row and next to a null time. */
  function Diff(t: seq<Option<int>>, i: nat): Option<int>
    requires i < |t|
  {
    if i == 0 || t[i].None? || t[i - 1].None? then None else Some(t[i].value - t[i - 1].value)
  }

  /** `.eq(Timedelta('1h')).astype(int)`: a null difference compares unequal. */
  function Gap(t: seq<Option<int>>, i: nat): int
    requires i < |t|
  {
    if Diff(t, i) == Some(Hour) then 1 else 0
  }

  function Gaps(t: seq<Option<int>>): seq<int> {
    seq(|t|, i requires 0 <= i < |t| => Gap(t, i))
  }

  /** Row `k` comes exactly one hour after row `k - 1`. */
  predicate Hourly(t: seq<Option<int>>, k: nat)
    requires k < |t|
  {
    k > 0 && t[k].Some? && t[k - 1].Some? && t[k].value == t[k - 1].value + Hour
  }

  /** The gap indicator is 1 exactly on hourly steps, and 0 on the first row and next to a null time. */
  lemma GapIndicator(t: seq<Option<int>>, k: nat)
    requires k < |t|
    ensures Gap(t, k) == 1 <==> Hourly(t, k)
    ensures Gap(t, k) == 0 <==> !Hourly(t, k)
    ensures k == 0 || t[k].None? || t[k - 1].None? ==> Gap(t, k) == 0
  {
  }

  function Sum(s: seq<int>): int {
    if s == [] then 0 else Sum(s[..|s| - 1]) + s[|s| - 1]
  }

  /** The rows `max(0, i + 1 - w) .. i` a trailing window of width `w` ending at row `i` covers. */
  function Trailing<T>(s: seq<T>, w: nat, i: nat): (r: seq<T>)
    requires i < |s|
    ensures |r| == if i + 1 >= w then w else i + 1
  {
    s[if i + 1 >= w then i + 1 - w else 0 .. i + 1]
  }

  /** `rolling(19, min_periods=19).sum()` of the (never null) gap indicators. */
  function RollingSum(g: seq<int>, i: nat): Option<int>
    requires i < |g|
  {
    var win := Trailing(g, Steps, i);
    if |win| < Steps then None else Some(Sum(win))
  }

  /** `contiguous_20[i]`: a null rolling sum compares unequal to 19. */
  predicate Contiguous(t: seq<Option<int>>, i: nat)
    requires i < |t|
  {
    RollingSum(Gaps(t), i) == Some(Steps)
  }

  /** A sum of 0/1 values reaches its length exactly when every value is 1. */
  lemma {:induction false} SumOfBits(s: seq<int>)
    requires forall k :: 0 <= k < |s| ==> 0 <= s[k] <= 1
    ensures Sum(s) <= |s|
    ensures Sum(s) == |s| <==> forall k :: 0 <= k < |s| ==> s[k] == 1
  {
    if s != [] {
      var s' := s[..|s| - 1];
      SumOfBits(s');
      if Sum(s) == |s| {
        forall k | 0 <= k < |s| ensures s[k] == 1 {
          if k < |s'| {
            assert s[k] == s'[k];
          }
        }
      }
    }
  }

  /**
   * The window ending at row `i` is contiguous exactly when `i >= 19` and each
   * of the 19 steps into rows `i - 18 .. i` is exactly one hour: as the first
   * row has no step, row 19 (the 20th row) is the first that can qualify.
   */
  lemma ContiguousIff(t: seq<Option<int>>, i: nat)
    requires i < |t|
    ensures Contiguous(t, i) <==> i >= Steps && forall k :: i + 1 - Steps <= k <= i ==> Hourly(t, k)
  {
    if i + 1 >= Steps {
      var win := Trailing(Gaps(t), Steps, i);
      assert forall j :: 0 <= j < |win| ==> win[j] == Gap(t, i + 1 - Steps + j);
      SumOfBits(win);
      if i == Steps - 1 {
        assert win[0] == Gap(t, 0) == 0;
      }
      if forall k :: i + 1 - Steps <= k <= i ==> Hourly(t, k) {
        forall j | 0 <= j < |win| ensures win[j] == 1 {
          GapIndicator(t, i + 1 - Steps + j);
        }
      }
      if Contiguous(t, i) {
        forall k | i + 1 - Steps <= k <= i ensures Hourly(t, k) {
          assert win[k - (i + 1 - Steps)] == 1;
          GapIndicator(t, k);
        }
      }
    }
  }

  /** Hourly steps from row `a` to row `b` put row `b` exactly `b - a` hours after row `a`. */
  lemma {:induction false} Cadence(t: seq<Option<int>>, a: nat, b: nat)
    requires a <= b < |t| && t[a].Some?
    requires forall k :: a < k <= b ==> Hourly(t, k)
    ensures t[b] == Some(t[a].value + (b - a) * Hour)
  {
    if a < b {
      Cadence(t, a, b - 1);
      assert Hourly(t, b);
      assert (b - a) * Hour == (b - 1 - a) * Hour + Hour;
    }
  }

  /** A contiguous window holds 20 timestamps exactly one hour apart, starting at row `i - 19`. */
  lemma ContiguousCadence(t: seq<Option<int>>, i: nat)
    requires i < |t| && Contiguous(t, i)
    ensures i >= Steps && t[i - Steps].Some?
    ensures forall k :: i - Steps <= k <= i ==> t[k] == Some(t[i - Steps].value + (k - (i - Steps)) * Hour)
  {
    ContiguousIff(t, i);
    assert Hourly(t, i + 1 - Steps);
    forall k | i - Steps <= k <= i ensures t[k] == Some(t[i - Steps].value + (k - (i - Steps)) * Hour) {
      Cadence(t, i - Steps, k);
    }
  }

  // ---------------------------------------------------------------------
  // The rolling statistic (line 51)
  // ---------------------------------------------------------------------

  /** The number of non-null values. */
  function CountPresent(s: seq<Option<real>>): (n: nat)
    ensures n <= |s|
  {
    if s == [] then 0 else CountPresent(s[..|s| - 1]) + (if s[|s| - 1].Some? then 1 else 0)
  }

  /** Every value is counted exactly when none is null. */
  lemma {:induction false} CountPresentFull(s: seq<Option<real>>)
    ensures CountPresent(s) == |s| <==> forall k :: 0 <= k < |s| ==> s[k].Some?
  {
    if s != [] {
      var s' := s[..|s| - 1];
      CountPresentFull(s');
      assert forall k :: 0 <= k < |s'| ==> s'[k] == s[k];
    }
  }

  /** The non-null values, in order. */
  function Present(s: seq<Option<real>>): (r: seq<real>)
    ensures |r| == CountPresent(s)
  {
    if s == [] then []
    else
      var r' := Present(s[..|s| - 1]);
      if s[|s| - 1].Some? then r' + [s[|s| - 1].value] else r'
  }

  function SumR(xs: seq<real>): real {
    if xs == [] then 0.0 else SumR(xs[..|xs| - 1]) + xs[|xs| - 1]
  }

  function Mean(xs: seq<real>): real
    requires |xs| > 0
  {
    SumR(xs) / |xs| as real
  }

  /** The sum of squared deviations from `m`. */
  function SquaredDeviation(xs: seq<real>, m: real): (r: real)
    ensures r >= 0.0
  {
    if xs == [] then 0.0
    else
      var d := xs[|xs| - 1] - m;
      SquaredDeviation(xs[..|xs| - 1], m) + d * d
  }

  /** The sample variance: squared deviations from the mean over `n - 1`; never negative. */
  function SampleVariance(xs: seq<real>): (r: real)
    requires |xs| >= 2
    ensures r >= 0.0
  {
    SquaredDeviation(xs, Mean(xs)) / (|xs| - 1) as real
  }

  /**
   * `rolling(20, min_periods=20)` of one column at row `i`: the statistic of
   * the non-null values in the trailing window, null unless there are at
   * least 20 of them.
   */
  function RollingStat(s: seq<Option<real>>, i: nat): Option<real>
    requires i < |s|
  {
    var win := Trailing(s, Span, i);
    if CountPresent(win) < Span then None else Some(SampleVariance(Present(win)))
  }

  /** With every value present, `Present` just unwraps them. */
  lemma {:induction false} PresentAll(s: seq<Option<real>>)
    requires forall k :: 0 <= k < |s| ==> s[k].Some?
    ensures Present(s) == seq(|s|, k requires 0 <= k < |s| => s[k].value)
  {
    if s != [] {
      PresentAll(s[..|s| - 1]);
    }
  }

  /** The 20 values of the window ending at row `i` (all present). */
  function WindowValues(s: seq<Option<real>>, i: nat): seq<real>
    requires Span - 1 <= i < |s|
    requires forall k :: i + 1 - Span <= k <= i ==> s[k].Some?
  {
    seq(Span, j requires 0 <= j < Span => s[i + 1 - Span + j].value)
  }

  /**
   * The statistic at row `i` is non-null exactly when `i >= 19` and all 20
   * values of rows `i - 19 .. i` are present; it is then the sample variance
   * of exactly those 20 values.
   */
  lemma RollingStatIff(s: seq<Option<real>>, i: nat)
    requires i < |s|
    ensures RollingStat(s, i).Some? <==> i >= Span - 1 && forall k :: i + 1 - Span <= k <= i ==> s[k].Some?
    ensures RollingStat(s, i).Some? ==> RollingStat(s, i).value == SampleVariance(WindowValues(s, i))
  {
    var win := Trailing(s, Span, i);
    CountPresentFull(win);
    if i >= Span - 1 {
      assert forall j :: 0 <= j < |win| ==> win[j] == s[i + 1 - Span + j];
      if forall k :: i + 1 - Span <= k <= i ==> s[k].Some? {
        PresentAll(win);
        assert Present(win) == WindowValues(s, i);
      }
      if CountPresent(win) == Span {
        forall k | i + 1 - Span <= k <= i ensures s[k].Some? {
          assert win[k - (i + 1 - Span)] == s[k];
        }
      }
    }
  }

  /** `roll_std.where(contiguous_20)` (lines 51-53): the statistic of column `c`, masked where the window is not contiguous. */
  function StdevAt(g: seq<Snap>, c: Column, i: nat): Option<real>
    requires i < |g|
  {
    if Contiguous(Times(g), i) then RollingStat(Values(g, c), i) else None
  }

  /**
   * A stdev is non-null exactly when `i >= 19`, the 20 values of rows
   * `i - 19 .. i` are present and every step between those rows is one hour;
   * it is then the sample statistic of exactly those 20 values.
   */
  lemma StdevNonNull(g: seq<Snap>, c: Column, i: nat)
    requires i < |g|
    ensures StdevAt(g, c, i).Some? <==>
              i >= Steps &&
              (forall k :: i - Steps <= k <= i ==> ValueOf(g[k], c).Some?) &&
              (forall k :: i - Steps < k <= i ==> Hourly(Times(g), k))
    ensures StdevAt(g, c, i).Some? ==> StdevAt(g, c, i).value == SampleVariance(WindowValues(Values(g, c), i))
  {
    ContiguousIff(Times(g), i);
    RollingStatIff(Values(g, c), i);
    assert forall k :: 0 <= k < |g| ==> Values(g, c)[k] == ValueOf(g[k], c);
  }

  /** A step at row `k` that is not exactly one hour nulls every stdev of the windows ending at rows `k .. k + 18`. */
  lemma BreakBlocks(g: seq<Snap>, c: Column, k: nat, i: nat)
    requires k <= i < |g| && i <= k + Steps - 1
    requires !Hourly(Times(g), k)
    ensures StdevAt(g, c, i).None?
  {
    ContiguousIff(Times(g), i);
  }

  // ---------------------------------------------------------------------
  // gap_blocked (lines 58-60)
  // ---------------------------------------------------------------------

  /** Line 60 as written: not contiguous, and some (already masked) stdev column non-null. */
  predicate GapBlockedAsWritten(g: seq<Snap>, i: nat)
    requires i < |g|
  {
    !Contiguous(Times(g), i) && (StdevAt(g, Bid, i).Some? || StdevAt(g, Mid, i).Some? || StdevAt(g, Ask, i).Some?)
  }

  /** The columns it tests were masked by the very condition it negates, so the flag as written is never set. */
  lemma GapBlockedAsWrittenNeverSet(g: seq<Snap>, i: nat)
    requires i < |g|
    ensures !GapBlockedAsWritten(g, i)
  {
  }

  /** The flag as its comment means it: not contiguous, although some column had a full window before masking. */
  predicate GapBlocked(g: seq<Snap>, i: nat)
    requires i < |g|
  {
    !Contiguous(Times(g), i) &&
    (RollingStat(Values(g, Bid), i).Some? || RollingStat(Values(g, Mid), i).Some? || RollingStat(Values(g, Ask), i).Some?)
  }

  /** Column `c` has all 20 values of the window ending at row `i`. */
  predicate FullWindow(g: seq<Snap>, c: Column, i: nat)
    requires Steps <= i < |g|
  {
    forall k :: i - Steps <= k <= i ==> ValueOf(g[k], c).Some?
  }

  /** `gap_blocked` is set exactly on rows from the 20th on where some column has 20 values but a step in the window is not hourly. */
  lemma GapBlockedIff(g: seq<Snap>, i: nat)
    requires i < |g|
    ensures GapBlocked(g, i) <==>
              i >= Steps &&
              (exists k :: i - Steps < k <= i && !Hourly(Times(g), k)) &&
              (FullWindow(g, Bid, i) || FullWindow(g, Mid, i) || FullWindow(g, Ask, i))
  {
    ContiguousIff(Times(g), i);
    FullWindowIff(g, Bid, i);
    FullWindowIff(g, Mid, i);
    FullWindowIff(g, Ask, i);
  }

  /** The unmasked statistic of a column is non-null exactly on a full window. */
  lemma FullWindowIff(g: seq<Snap>, c: Column, i: nat)
    requires i < |g|
    ensures RollingStat(Values(g, c), i).Some? <==> i >= Steps && FullWindow(g, c, i)
  {
    RollingStatIff(Values(g, c), i);
    assert forall k :: 0 <= k < |g| ==> Values(g, c)[k] == ValueOf(g[k], c);
  }

  /** Twenty full quotes two hours apart: row 19 is gap-blocked, yet the flag as written is unset. */
  function TwoHourly(): seq<Snap> {
    seq(Span, k requires 0 <= k < Span => Snap("S", Some(2 * Hour * k), Some(1.0), Some(1.0), Some(1.0)))
  }

  lemma GapBlockedWitness()
    ensures |TwoHourly()| == Span
    ensures GapBlocked(TwoHourly(), Span - 1) && !GapBlockedAsWritten(TwoHourly(), Span - 1)
  {
    var g := TwoHourly();
    assert !Hourly(Times(g), 1);
    GapBlockedIff(g, Span - 1);
    assert FullWindow(g, Bid, Span - 1);
  }

  // ---------------------------------------------------------------------
  // One group (lines 41-62)
  // ---------------------------------------------------------------------

  /** Row `i` of the result for the sorted group `g`. */
  function ResultRow(g: seq<Snap>, i: nat, addFlag: bool): StdevRow
    requires i < |g|
  {
    StdevRow(g[i], StdevAt(g, Bid, i), StdevAt(g, Mid, i), StdevAt(g, Ask, i),
             if addFlag then Some(GapBlocked(g, i)) else None)
  }

  /** The time-sorted group `g` with the appended columns: one row per snapshot, each kept as it was. */
  function Annotate(g: seq<Snap>, addFlag: bool): (rows: seq<StdevRow>)
    ensures |rows| == |g|
    ensures forall i :: 0 <= i < |g| ==> rows[i].snap == g[i] && rows[i].gapBlocked.Some? == addFlag
  {
    seq(|g|, i requires 0 <= i < |g| => ResultRow(g, i, addFlag))
  }

  /** The table `_compute_group_stdev` returns for one security's rows. */
  function GroupRows(grp: seq<Snap>, addFlag: bool): seq<StdevRow> {
    Annotate(SortBy(grp, TimeKey), addFlag)
  }

  function Snaps(rows: seq<StdevRow>): seq<Snap> {
    seq(|rows|, i requires 0 <= i < |rows| => rows[i].snap)
  }

  /**
   * One output row per input row: the group's rows in ascending `snap_time`
   * (null times last), none lost or added, with the statistic columns
   * appended and `gap_blocked` present exactly when asked for.
   */
  lemma GroupShape(grp: seq<Snap>, addFlag: bool)
    ensures |GroupRows(grp, addFlag)| == |grp|
    ensures Snaps(GroupRows(grp, addFlag)) == SortBy(grp, TimeKey)
    ensures SortedBy(Snaps(GroupRows(grp, addFlag)), TimeKey)
    ensures multiset(Snaps(GroupRows(grp, addFlag))) == multiset(grp)
    ensures forall i :: 0 <= i < |grp| ==> GroupRows(grp, addFlag)[i].gapBlocked.Some? == addFlag
  {
    var g := SortBy(grp, TimeKey);
    SortBySorted(grp, TimeKey);
    assert Snaps(Annotate(g, addFlag)) == g;
  }

  /**
   * The rolling statistic of one column, row by row as the window slides:
   * the count of non-null values is kept up to date by adding the entering
   * row and dropping the leaving one.
   */
  method RollingStd(s: seq<Option<real>>) returns (r: seq<Option<real>>)
    ensures |r| == |s|
    ensures forall i :: 0 <= i < |s| ==> r[i] == RollingStat(s, i)
  {
    r := [];
    var lo, count := 0, 0;
    for i := 0 to |s|
      invariant |r| == i
      invariant forall k :: 0 <= k < i ==> r[k] == RollingStat(s, k)
      invariant lo == if i >= Span then i - Span + 1 else 0
      invariant count == CountPresent(s[lo..i])
    {
      var stat;
      stat, lo, count := Slide(s, lo, i, count);
      r := r + [stat];
    }
  }

  /**
   * One step of the rolling window at row `i`: count the entering row, take
   * the statistic, then drop the row that leaves before the next step.
   */
  method Slide(s: seq<Option<real>>, lo0: nat, i: nat, count0: nat) returns (stat: Option<real>, lo: nat, count: nat)
    requires i < |s| && lo0 == (if i >= Span then i - Span + 1 else 0)
    requires count0 == CountPresent(s[lo0..i])
    ensures stat == RollingStat(s, i)
    ensures lo == (if i + 1 >= Span then i + 1 - Span + 1 else 0)
    ensures count == CountPresent(s[lo..i + 1])
  {
    CountPresentExtend(s, lo0, i);
    lo, count := lo0, count0 + if s[i].Some? then 1 else 0;
    assert s[lo..i + 1] == Trailing(s, Span, i);
    stat := if count < Span then None else Some(SampleVariance(Present(s[lo..i + 1])));
    if i + 1 >= Span {
      CountPresentShrink(s, lo, i + 1);
      count := count - if s[lo].Some? then 1 else 0;
      lo := lo + 1;
    }
  }

  /** Counting one more row at the end of a window. */
  lemma CountPresentExtend(s: seq<Option<real>>, lo: nat, hi: nat)
    requires lo <= hi < |s|
    ensures CountPresent(s[lo..hi + 1]) == CountPresent(s[lo..hi]) + if s[hi].Some? then 1 else 0
  {
    assert s[lo..hi + 1][..hi - lo] == s[lo..hi];
  }

  /** Dropping the first row of a window. */
  lemma {:induction false} CountPresentShrink(s: seq<Option<real>>, lo: nat, hi: nat)
    requires lo < hi <= |s|
    ensures CountPresent(s[lo..hi]) == CountPresent(s[lo + 1..hi]) + if s[lo].Some? then 1 else 0
  {
    if hi > lo + 1 {
      CountPresentShrink(s, lo, hi - 1);
      CountPresentExtend(s, lo, hi - 1);
      CountPresentExtend(s, lo + 1, hi - 1);
    } else {
      assert s[lo + 1..hi] == [];
      assert s[lo..hi][..0] == [];
    }
  }

  /**
   * `_compute_group_stdev`: sort the group by time, compute the contiguity
   * mask once, then for each of bid, mid and ask append the masked rolling
   * statistic to the result columns, and finally set `gap_blocked` in place
   * when asked for.
   */
  method ComputeGroup(grp: seq<Snap>, addFlag: bool) returns (out: seq<StdevRow>)
    ensures out == GroupRows(grp, addFlag)
  {
    var g := SortBy(grp, TimeKey);
    var t := Times(g);
    var contiguous := seq(|g|, i requires 0 <= i < |g| => Contiguous(t, i));
    var rolled: seq<seq<Option<real>>>, results: seq<seq<Option<real>>> := RollColumns(g, contiguous);
    out := seq(|g|, i requires 0 <= i < |g| => StdevRow(g[i], results[0][i], results[1][i], results[2][i], None));
    if addFlag {
      out := seq(|out|, i requires 0 <= i < |out| =>
        out[i].(gapBlocked := Some(!contiguous[i] && (rolled[0][i].Some? || rolled[1][i].Some? || rolled[2][i].Some?))));
    }
  }

  /** The loop over bid, mid and ask: each column's rolling statistic, and that statistic masked by contiguity. */
  method RollColumns(g: seq<Snap>, contiguous: seq<bool>) returns (rolled: seq<seq<Option<real>>>, results: seq<seq<Option<real>>>)
    requires |contiguous| == |g|
    requires forall i :: 0 <= i < |g| ==> contiguous[i] == Contiguous(Times(g), i)
    ensures |rolled| == |results| == 3
    ensures forall j :: 0 <= j < 3 ==> |rolled[j]| == |results[j]| == |g|
    ensures forall j, i :: 0 <= j < 3 && 0 <= i < |g| ==> rolled[j][i] == RollingStat(Values(g, [Bid, Mid, Ask][j]), i)
    ensures forall j, i :: 0 <= j < 3 && 0 <= i < |g| ==> results[j][i] == StdevAt(g, [Bid, Mid, Ask][j], i)
  {
    var columns := [Bid, Mid, Ask];
    rolled, results := [], [];
    for c := 0 to |columns|
      invariant |rolled| == |results| == c
      invariant forall j :: 0 <= j < c ==> |rolled[j]| == |results[j]| == |g|
      invariant forall j, i :: 0 <= j < c && 0 <= i < |g| ==> rolled[j][i] == RollingStat(Values(g, columns[j]), i)
      invariant forall j, i :: 0 <= j < c && 0 <= i < |g| ==> results[j][i] == StdevAt(g, columns[j], i)
    {
      var roll := RollingStd(Values(g, columns[c]));
      var masked := seq(|g|, i requires 0 <= i < |g| => if contiguous[i] then roll[i] else None);
      rolled := rolled + [roll];
      results := results + [masked];
    }
  }
}
