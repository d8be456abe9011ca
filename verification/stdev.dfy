/**
 * `StdDevProcessor.process` after loading: sort the snapshots by
 * (`security_id`, `snap_time`), run the per-group computation on each
 * security's rows, concatenate the group results and keep the rows whose
 * `snap_time` lies inside the inclusive `[start, end]` window.
 */
module Stdev {
  import opened Wrappers
  import opened Ordering
  import opened Table
  import opened Rolling

  /** `sort_values(['security_id', 'snap_time'])`. */
  function SecTimeKey(s: Snap): Key {
    [Text(s.security), Stamp(s.time)]
  }

  function OfSecurity(k: string): Snap -> bool {
    (s: Snap) => s.security == k
  }

  function RowOfSecurity(k: string): StdevRow -> bool {
    (r: StdevRow) => r.snap.security == k
  }

  /**
   * The group keys of `groupby('security_id')`, each once, in the order they
   * first occur. On the frame sorted by security this is also the sorted key
   * order `groupby` uses.
   */
  function GroupKeys(d: seq<Snap>): (ks: seq<string>)
    ensures forall a, b :: 0 <= a < b < |ks| ==> ks[a] != ks[b]
    ensures forall i :: 0 <= i < |d| ==> d[i].security in ks
    ensures forall j :: 0 <= j < |ks| ==> exists i :: 0 <= i < |d| && d[i].security == ks[j]
  {
    if d == [] then []
    else
      var d' := d[..|d| - 1];
      var ks' := GroupKeys(d');
      assert forall i :: 0 <= i < |d'| ==> d'[i] == d[i];
      if d[|d| - 1].security in ks' then ks' else ks' + [d[|d| - 1].security]
  }

  /** On the frame sorted by security, first occurrence is ascending key order, as `groupby` visits them. */
  lemma {:induction false} GroupKeysAscending(d: seq<Snap>)
    requires SortedBy(d, SecTimeKey)
    ensures forall a, b :: 0 <= a < b < |GroupKeys(d)| ==> StrLe(GroupKeys(d)[a], GroupKeys(d)[b])
  {
    if d != [] {
      var d', x := d[..|d| - 1], d[|d| - 1];
      assert forall i :: 0 <= i < |d'| ==> d'[i] == d[i];
      GroupKeysAscending(d');
      var ks' := GroupKeys(d');
      if x.security !in ks' {
        forall j | 0 <= j < |ks'| ensures StrLe(ks'[j], x.security) {
          var i :| 0 <= i < |d'| && d'[i].security == ks'[j];
          KeyLeHead(SecTimeKey(d[i]), SecTimeKey(x));
        }
      }
    }
  }

  /** The result of `_compute_group_stdev` for each group, in key order. */
  function GroupTables(d: seq<Snap>, ks: seq<string>, addFlag: bool): (ts: seq<seq<StdevRow>>)
    ensures |ts| == |ks|
  {
    if ks == [] then []
    else GroupTables(d, ks[..|ks| - 1], addFlag) + [GroupRows(Filter(d, OfSecurity(ks[|ks| - 1])), addFlag)]
  }

  /** `pd.concat` of a list of tables: their rows one table after the other. */
  function Concat<T>(ts: seq<seq<T>>): seq<T> {
    if ts == [] then [] else Concat(ts[..|ts| - 1]) + ts[|ts| - 1]
  }

  /** The inclusive window of lines 92-93; a null `snap_time` compares false with both bounds. */
  function InRange(start: int, end: int): StdevRow -> bool {
    (r: StdevRow) => r.snap.time.Some? && start <= r.snap.time.value && r.snap.time.value <= end
  }

  /** What `process` returns: the filtered table, or the error `pd.concat` raises on an empty list. */
  datatype Outcome = Rows(rows: seq<StdevRow>) | NoObjectsToConcatenate

  /** `result` at line 89: the group results of the sorted frame, concatenated. */
  function Concatenated(df: seq<Snap>, addFlag: bool): seq<StdevRow> {
    var d := SortBy(df, SecTimeKey);
    Concat(GroupTables(d, GroupKeys(d), addFlag))
  }

  /** The result of `process` on the loaded snapshots. */
  function StdevOutput(df: seq<Snap>, start: int, end: int, addFlag: bool): Outcome {
    if GroupKeys(SortBy(df, SecTimeKey)) == [] then NoObjectsToConcatenate
    else Rows(Filter(Concatenated(df, addFlag), InRange(start, end)))
  }

  /**
   * `process`: sort, run the groups, concatenate their results and filter
   * by the window; with no groups at all the concatenation raises.
   */
  method Process(df: seq<Snap>, start: int, end: int, addFlag: bool) returns (res: Outcome)
    ensures res == StdevOutput(df, start, end, addFlag)
  {
    var d := SortBy(df, SecTimeKey);
    var ks := GroupKeys(d);
    var allResults := ComputeGroups(d, ks, addFlag);
    if allResults == [] {
      return NoObjectsToConcatenate;
    }
    var result := Concat(allResults);
    res := Rows(Filter(result, InRange(start, end)));
  }

  /** The loop of lines 84-87: for each security in key order, append its group result to `all_results`. */
  method ComputeGroups(d: seq<Snap>, ks: seq<string>, addFlag: bool) returns (allResults: seq<seq<StdevRow>>)
    ensures allResults == GroupTables(d, ks, addFlag)
  {
    allResults := [];
    for j := 0 to |ks|
      invariant allResults == GroupTables(d, ks[..j], addFlag)
    {
      var grpResult := ComputeGroup(Filter(d, OfSecurity(ks[j])), addFlag);
      GroupTablesExtend(d, ks, j, addFlag);
      allResults := allResults + [grpResult];
    }
    assert ks[..|ks|] == ks;
  }

  lemma GroupTablesExtend(d: seq<Snap>, ks: seq<string>, j: nat, addFlag: bool)
    requires j < |ks|
    ensures GroupTables(d, ks[..j + 1], addFlag) ==
              GroupTables(d, ks[..j], addFlag) + [GroupRows(Filter(d, OfSecurity(ks[j])), addFlag)]
  {
    assert ks[..j + 1][..j] == ks[..j];
  }

  // ---------------------------------------------------------------------
  // Properties
  // ---------------------------------------------------------------------

  /** `pd.concat` raises exactly when there are no rows, and so no groups. */
  lemma NoGroupsIffEmpty(df: seq<Snap>, start: int, end: int, addFlag: bool)
    ensures StdevOutput(df, start, end, addFlag).NoObjectsToConcatenate? <==> df == []
  {
    var d := SortBy(df, SecTimeKey);
    if d != [] {
      assert d[0].security in GroupKeys(d);
    }
  }

  /** Within one security, the (security, time) order is the time order. */
  lemma SameSecurityOrder(a: Snap, b: Snap)
    requires a.security == b.security
    ensures KeyLe(SecTimeKey(a), SecTimeKey(b)) == KeyLe(TimeKey(a), TimeKey(b))
  {
    assert SecTimeKey(a)[1..] == TimeKey(a);
    assert SecTimeKey(b)[1..] == TimeKey(b);
  }

  /**
   * The group `groupby` hands over for security `k` is that security's rows
   * of the input, and the group computation gives the same table whatever
   * order those rows came in.
   */
  lemma GroupOfSortedFrame(df: seq<Snap>, k: string, addFlag: bool)
    ensures GroupRows(Filter(SortBy(df, SecTimeKey), OfSecurity(k)), addFlag) == GroupRows(Filter(df, OfSecurity(k)), addFlag)
  {
    var f := Filter(df, OfSecurity(k));
    SortFilter(df, SecTimeKey, OfSecurity(k));
    FilterMembers(df, OfSecurity(k));
    forall i, j | 0 <= i < |f| && 0 <= j < |f|
      ensures KeyLe(SecTimeKey(f[i]), SecTimeKey(f[j])) == KeyLe(TimeKey(f[i]), TimeKey(f[j]))
    {
      SameSecurityOrder(f[i], f[j]);
    }
    SortBySameOrder(f, SecTimeKey, TimeKey);
    var g := SortBy(f, TimeKey);
    SortBySorted(f, TimeKey);
    SortBySortedUnchanged(g, TimeKey);
  }

  /** Every row of the group result for `k` belongs to security `k`. */
  lemma GroupRowsOfSecurity(d: seq<Snap>, k: string, addFlag: bool)
    ensures forall i :: 0 <= i < |GroupRows(Filter(d, OfSecurity(k)), addFlag)| ==>
              GroupRows(Filter(d, OfSecurity(k)), addFlag)[i].snap.security == k
  {
    var grp := Filter(d, OfSecurity(k));
    var rows := GroupRows(grp, addFlag);
    GroupShape(grp, addFlag);
    FilterMembers(d, OfSecurity(k));
    forall i | 0 <= i < |rows| ensures rows[i].snap.security == k {
      assert Snaps(rows)[i] == rows[i].snap;
      assert rows[i].snap in multiset(grp);
    }
  }

  /** Every row of `t` belongs to security `k`. */
  predicate AllOfSecurity(t: seq<StdevRow>, k: string) {
    forall i :: 0 <= i < |t| ==> t[i].snap.security == k
  }

  /** Picking security `k`'s rows out of tables whose rows all belong to their own one of the distinct keys `ks`: table `j`, when `ks[j] == k`. */
  lemma {:induction false} FilterConcatByKey(ts: seq<seq<StdevRow>>, ks: seq<string>, k: string, j: nat)
    requires |ts| == |ks| && j < |ks| && ks[j] == k
    requires forall a, b :: 0 <= a < b < |ks| ==> ks[a] != ks[b]
    requires forall i :: 0 <= i < |ts| ==> AllOfSecurity(ts[i], ks[i])
    ensures Filter(Concat(ts), RowOfSecurity(k)) == ts[j]
  {
    var n := |ts| - 1;
    var ts', ks' := ts[..n], ks[..n];
    assert forall i :: 0 <= i < n ==> ts'[i] == ts[i] && ks'[i] == ks[i];
    FilterLastTable(ts, ks[n], k);
    if j == n {
      assert k !in ks';
      FilterConcatAbsent(ts', ks', k);
      assert Filter(Concat(ts), RowOfSecurity(k)) == [] + ts[n];
    } else {
      FilterConcatByKey(ts', ks', k, j);
      assert Filter(Concat(ts), RowOfSecurity(k)) == Filter(Concat(ts'), RowOfSecurity(k)) + [];
    }
  }

  /** No row of security `k` is in tables whose rows all belong to keys other than `k`. */
  lemma {:induction false} FilterConcatAbsent(ts: seq<seq<StdevRow>>, ks: seq<string>, k: string)
    requires |ts| == |ks| && k !in ks
    requires forall i :: 0 <= i < |ts| ==> AllOfSecurity(ts[i], ks[i])
    ensures Filter(Concat(ts), RowOfSecurity(k)) == []
  {
    if ts != [] {
      var n := |ts| - 1;
      var ts', ks' := ts[..n], ks[..n];
      assert forall i :: 0 <= i < n ==> ts'[i] == ts[i] && ks'[i] == ks[i];
      FilterConcatAbsent(ts', ks', k);
      FilterLastTable(ts, ks[n], k);
      assert Filter(Concat(ts), RowOfSecurity(k)) == [] + [];
    }
  }

  /** Security `k`'s rows of the concatenation gain the whole last table when it is `k`'s, and nothing otherwise. */
  lemma FilterLastTable(ts: seq<seq<StdevRow>>, last: string, k: string)
    requires ts != [] && AllOfSecurity(ts[|ts| - 1], last)
    ensures Filter(Concat(ts), RowOfSecurity(k)) ==
              Filter(Concat(ts[..|ts| - 1]), RowOfSecurity(k)) + if last == k then ts[|ts| - 1] else []
  {
    var n := |ts| - 1;
    assert Concat(ts) == Concat(ts[..n]) + ts[n];
    FilterConcat(Concat(ts[..n]), ts[n], RowOfSecurity(k));
    if last == k {
      FilterAll(ts[n], RowOfSecurity(k));
    } else {
      FilterNone(ts[n], RowOfSecurity(k));
    }
  }

  /** Table `j` of the group results is the result for key `j`. */
  lemma {:induction false} GroupTablesAt(d: seq<Snap>, ks: seq<string>, addFlag: bool, j: nat)
    requires j < |ks|
    ensures GroupTables(d, ks, addFlag)[j] == GroupRows(Filter(d, OfSecurity(ks[j])), addFlag)
  {
    if j < |ks| - 1 {
      var ks' := ks[..|ks| - 1];
      GroupTablesAt(d, ks', addFlag, j);
      assert ks'[j] == ks[j];
    }
  }

  /** Picking security `k`'s rows out of the concatenated group results of distinct keys `ks`. */
  lemma ConcatPicksGroup(d: seq<Snap>, ks: seq<string>, k: string, addFlag: bool)
    requires forall a, b :: 0 <= a < b < |ks| ==> ks[a] != ks[b]
    ensures Filter(Concat(GroupTables(d, ks, addFlag)), RowOfSecurity(k)) ==
              if k in ks then GroupRows(Filter(d, OfSecurity(k)), addFlag) else []
  {
    var ts := GroupTables(d, ks, addFlag);
    forall j | 0 <= j < |ts| ensures AllOfSecurity(ts[j], ks[j]) {
      GroupTablesAt(d, ks, addFlag, j);
      GroupRowsOfSecurity(d, ks[j], addFlag);
    }
    if k in ks {
      var j :| 0 <= j < |ks| && ks[j] == k;
      FilterConcatByKey(ts, ks, k, j);
      GroupTablesAt(d, ks, addFlag, j);
    } else {
      FilterConcatAbsent(ts, ks, k);
    }
  }

  /**
   * Group independence: the rows of security `k` in the concatenated result
   * are exactly the group computation run on that security's input rows,
   * whatever the other securities' rows are and however the rows are ordered.
   */
  lemma GroupResult(df: seq<Snap>, k: string, addFlag: bool)
    ensures Filter(Concatenated(df, addFlag), RowOfSecurity(k)) == GroupRows(Filter(df, OfSecurity(k)), addFlag)
  {
    var d := SortBy(df, SecTimeKey);
    ConcatPicksGroup(d, GroupKeys(d), k, addFlag);
    GroupOfSortedFrame(df, k, addFlag);
    if k !in GroupKeys(d) {
      FilterNone(d, OfSecurity(k));
    }
  }

  /** The output rows of security `k` are its group result inside the window. */
  lemma OutputOfSecurity(df: seq<Snap>, start: int, end: int, addFlag: bool, k: string)
    requires df != []
    ensures StdevOutput(df, start, end, addFlag).Rows?
    ensures Filter(StdevOutput(df, start, end, addFlag).rows, RowOfSecurity(k)) ==
              Filter(GroupRows(Filter(df, OfSecurity(k)), addFlag), InRange(start, end))
  {
    NoGroupsIffEmpty(df, start, end, addFlag);
    var c := Concatenated(df, addFlag);
    var both := (r: StdevRow) => InRange(start, end)(r) && RowOfSecurity(k)(r);
    FilterFilter(c, InRange(start, end), RowOfSecurity(k), both);
    FilterFilter(c, RowOfSecurity(k), InRange(start, end), both);
    GroupResult(df, k, addFlag);
  }

  /** Two inputs with the same rows for security `k` give the same output rows for `k`. */
  lemma GroupIndependence(df1: seq<Snap>, df2: seq<Snap>, start: int, end: int, addFlag: bool, k: string)
    requires df1 != [] && df2 != []
    requires Filter(df1, OfSecurity(k)) == Filter(df2, OfSecurity(k))
    ensures StdevOutput(df1, start, end, addFlag).Rows? && StdevOutput(df2, start, end, addFlag).Rows?
    ensures Filter(StdevOutput(df1, start, end, addFlag).rows, RowOfSecurity(k)) ==
              Filter(StdevOutput(df2, start, end, addFlag).rows, RowOfSecurity(k))
  {
    OutputOfSecurity(df1, start, end, addFlag, k);
    OutputOfSecurity(df2, start, end, addFlag, k);
  }

  /** The final filter keeps exactly the rows with a `snap_time` in `[start, end]`, in order. */
  lemma WindowKeepsInRange(df: seq<Snap>, start: int, end: int, addFlag: bool)
    requires df != []
    ensures StdevOutput(df, start, end, addFlag).Rows?
    ensures var c, out := Concatenated(df, addFlag), StdevOutput(df, start, end, addFlag).rows;
            (forall i :: 0 <= i < |out| ==>
               out[i] in c && out[i].snap.time.Some? && start <= out[i].snap.time.value <= end) &&
            (forall i :: 0 <= i < |c| && c[i].snap.time.Some? && start <= c[i].snap.time.value <= end ==> c[i] in out)
  {
    NoGroupsIffEmpty(df, start, end, addFlag);
    FilterMembers(Concatenated(df, addFlag), InRange(start, end));
  }

  /**
   * The window cut keeps the concatenation's order and every row in range
   * once per occurrence: output row `i` is concatenated row `ix[i]`, the
   * positions ascend and are exactly those of the rows in range.
   */
  lemma WindowKeepsOrder(df: seq<Snap>, start: int, end: int, addFlag: bool)
    requires df != []
    ensures StdevOutput(df, start, end, addFlag).Rows?
    ensures var c, out, ix := Concatenated(df, addFlag), StdevOutput(df, start, end, addFlag).rows, Selected(Concatenated(df, addFlag), InRange(start, end));
            |ix| == |out| &&
            (forall i :: 0 <= i < |ix| ==> ix[i] < |c| && out[i] == c[ix[i]] && InRange(start, end)(c[ix[i]])) &&
            (forall i, j :: 0 <= i < j < |ix| ==> ix[i] < ix[j]) &&
            (forall k :: 0 <= k < |c| && InRange(start, end)(c[k]) ==> k in ix) &&
            (forall x :: multiset(out)[x] == if InRange(start, end)(x) then multiset(c)[x] else 0)
  {
    NoGroupsIffEmpty(df, start, end, addFlag);
    FilterPositions(Concatenated(df, addFlag), InRange(start, end));
    FilterCounts(Concatenated(df, addFlag), InRange(start, end));
  }

  /** Row count of `ks`' groups of `d`. */
  function GroupSizes(d: seq<Snap>, ks: seq<string>): nat {
    if ks == [] then 0 else GroupSizes(d, ks[..|ks| - 1]) + |Filter(d, OfSecurity(ks[|ks| - 1]))|
  }

  /** How many times `k` occurs in `ks`. */
  function Occurrences(ks: seq<string>, k: string): nat {
    if ks == [] then 0 else Occurrences(ks[..|ks| - 1], k) + if ks[|ks| - 1] == k then 1 else 0
  }

  lemma {:induction false} OccursOnce(ks: seq<string>, k: string)
    requires forall a, b :: 0 <= a < b < |ks| ==> ks[a] != ks[b]
    ensures Occurrences(ks, k) == if k in ks then 1 else 0
  {
    if ks != [] {
      var ks' := ks[..|ks| - 1];
      OccursOnce(ks', k);
      assert k in ks <==> k in ks' || ks[|ks| - 1] == k;
    }
  }

  lemma {:induction false} GroupSizesExtend(d: seq<Snap>, x: Snap, ks: seq<string>)
    ensures GroupSizes(d + [x], ks) == GroupSizes(d, ks) + Occurrences(ks, x.security)
  {
    if ks != [] {
      GroupSizesExtend(d, x, ks[..|ks| - 1]);
      FilterConcat(d, [x], OfSecurity(ks[|ks| - 1]));
    }
  }

  /** Distinct keys covering every row split the rows into groups whose sizes add up to the row count. */
  lemma {:induction false} GroupsPartition(d: seq<Snap>, ks: seq<string>)
    requires forall a, b :: 0 <= a < b < |ks| ==> ks[a] != ks[b]
    requires forall i :: 0 <= i < |d| ==> d[i].security in ks
    ensures GroupSizes(d, ks) == |d|
  {
    if d == [] {
      GroupSizesOfEmpty(ks);
    } else {
      var d', x := d[..|d| - 1], d[|d| - 1];
      GroupsPartition(d', ks);
      assert d == d' + [x];
      GroupSizesExtend(d', x, ks);
      OccursOnce(ks, x.security);
    }
  }

  lemma {:induction false} GroupSizesOfEmpty(ks: seq<string>)
    ensures GroupSizes([], ks) == 0
  {
    if ks != [] {
      GroupSizesOfEmpty(ks[..|ks| - 1]);
    }
  }

  lemma {:induction false} ConcatSize(d: seq<Snap>, ks: seq<string>, addFlag: bool)
    ensures |Concat(GroupTables(d, ks, addFlag))| == GroupSizes(d, ks)
  {
    if ks != [] {
      var ks' := ks[..|ks| - 1];
      ConcatSize(d, ks', addFlag);
      assert GroupTables(d, ks, addFlag)[..|ks| - 1] == GroupTables(d, ks', addFlag);
      GroupShape(Filter(d, OfSecurity(ks[|ks| - 1])), addFlag);
    }
  }

  /** Before the window filter the concatenated result has exactly one row per input snapshot. */
  lemma ConcatKeepsEveryRow(df: seq<Snap>, addFlag: bool)
    ensures |Concatenated(df, addFlag)| == |df|
  {
    var d := SortBy(df, SecTimeKey);
    ConcatSize(d, GroupKeys(d), addFlag);
    GroupsPartition(d, GroupKeys(d));
  }
}
