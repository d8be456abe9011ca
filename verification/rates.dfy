/**
 * `RatesProcessor.process` after loading: sort prices and spot rows, join
 * them as of time, left-merge the conversion rules, compute `new_price`
 * and keep the rows inside the optional time window.
 */
module Rates {
  import opened Wrappers
  import opened Table
  import opened RatesRecords
  import opened AsOf

  /** A price row after merge_asof: `spotMid` is the matched row's `spot_mid_rate`, null without a match. */
  datatype AlignedRow = AlignedRow(price: PriceRow, spotMid: Option<real>)

  /** A row after the left merge: the rule columns are null when no rule has the row's pair. */
  datatype MergedRow = MergedRow(price: PriceRow, spotMid: Option<real>, convert: Option<bool>, factor: Option<real>)

  /** An output row: `convert_price` coerced to bool, and `new_price`. */
  datatype OutRow = OutRow(price: PriceRow, spotMid: Option<real>, convert: bool, factor: Option<real>, newPrice: Option<real>)

  /** The `spot_mid_rate` brought in by a match (null without one). */
  function MidAt(S: seq<SpotRow>, m: Option<nat>): Option<real> {
    if m.Some? && m.value < |S| then S[m.value].mid else None
  }

  /** The `spot_mid_rate` column merge_asof gives price `p`. */
  function MatchedMid(S: seq<SpotRow>, p: PriceRow): Option<real> {
    MidAt(S, AsOfMatch(S, p))
  }

  /** The table merge_asof returns: one row per price, in price order. */
  function Align(P: seq<PriceRow>, S: seq<SpotRow>): seq<AlignedRow> {
    seq(|P|, i requires 0 <= i < |P| => AlignedRow(P[i], MatchedMid(S, P[i])))
  }

  function RuleOf(pair: string): Rule -> bool {
    (r: Rule) => r.pair == pair
  }

  ghost predicate UniqueRules(rules: seq<Rule>) {
    forall i, j :: 0 <= i < j < |rules| ==> rules[i].pair != rules[j].pair
  }

  /** The first rule for `pair`, if any; with unique rules, the only one. */
  function RuleFor(rules: seq<Rule>, pair: string): Option<Rule> {
    var f := Filter(rules, RuleOf(pair));
    if f == [] then None else Some(f[0])
  }

  /** The rows the merge makes of one left row: one per matching rule, or one with null rule columns. */
  function Expand(a: AlignedRow, matching: seq<Rule>): seq<MergedRow> {
    if matching == [] then [MergedRow(a.price, a.spotMid, None, None)]
    else
      seq(|matching|, k requires 0 <= k < |matching| =>
        MergedRow(a.price, a.spotMid, Some(matching[k].convert), Some(matching[k].factor)))
  }

  /** `merge(ccy, on='ccy_pair', how='left')`: left rows in order, each expanded by its matching rules. */
  function LeftMerge(rows: seq<AlignedRow>, rules: seq<Rule>): seq<MergedRow> {
    if rows == [] then []
    else
      var a := rows[|rows| - 1];
      LeftMerge(rows[..|rows| - 1], rules) + Expand(a, Filter(rules, RuleOf(a.price.pair)))
  }

  /** At most one row of `s` satisfies `p`, so at most one is selected. */
  lemma {:induction false} FilterAtMostOne<T>(s: seq<T>, p: T -> bool)
    requires forall i, j :: 0 <= i < j < |s| && p(s[i]) ==> !p(s[j])
    ensures |Filter(s, p)| <= 1
  {
    if s != [] {
      var s' := s[..|s| - 1];
      if p(s[|s| - 1]) {
        FilterNone(s', p);
      } else {
        FilterAtMostOne(s', p);
      }
    }
  }

  /** The row a left merge makes of `a` when its pair has the rule `rule` (or none). */
  function MergeOne(a: AlignedRow, rule: Option<Rule>): MergedRow {
    match rule
    case None => MergedRow(a.price, a.spotMid, None, None)
    case Some(r) => MergedRow(a.price, a.spotMid, Some(r.convert), Some(r.factor))
  }

  /** With rules keyed uniquely by pair, the left merge keeps every row exactly once, in order. */
  lemma {:induction false} LeftMergeUnique(rows: seq<AlignedRow>, rules: seq<Rule>)
    requires UniqueRules(rules)
    ensures |LeftMerge(rows, rules)| == |rows|
    ensures forall i :: 0 <= i < |rows| ==> LeftMerge(rows, rules)[i] == MergeOne(rows[i], RuleFor(rules, rows[i].price.pair))
  {
    if rows != [] {
      var rows', a := rows[..|rows| - 1], rows[|rows| - 1];
      LeftMergeUnique(rows', rules);
      LeftMergeStep(rows, rules);
      var m, m' := LeftMerge(rows, rules), LeftMerge(rows', rules);
      forall i | 0 <= i < |rows| ensures m[i] == MergeOne(rows[i], RuleFor(rules, rows[i].price.pair)) {
        if i < |rows'| {
          assert rows[i] == rows'[i] && m[i] == m'[i];
        }
      }
    }
  }

  /** With rules keyed uniquely by pair, the last left row adds exactly one merged row. */
  lemma LeftMergeStep(rows: seq<AlignedRow>, rules: seq<Rule>)
    requires UniqueRules(rules) && rows != []
    ensures var a := rows[|rows| - 1];
            LeftMerge(rows, rules) == LeftMerge(rows[..|rows| - 1], rules) + [MergeOne(a, RuleFor(rules, a.price.pair))]
  {
    var a := rows[|rows| - 1];
    FilterAtMostOne(rules, RuleOf(a.price.pair));
    assert Expand(a, Filter(rules, RuleOf(a.price.pair))) == [MergeOne(a, RuleFor(rules, a.price.pair))];
  }

  /** `astype(bool)` on the merged `convert_price`: a null (no rule) is NaN, which is truthy. */
  function AsBool(c: Option<bool>): bool {
    c.GetOr(true)
  }

  /**
   * `new_price` of one row: null without a spot rate; the price itself when
   * no conversion is asked for; otherwise `price / conversion_factor +
   * spot_mid_rate`, null when the factor is null or zero.
   */
  function NewPrice(price: real, spotMid: Option<real>, convert: bool, factor: Option<real>): Option<real> {
    if spotMid.None? then None
    else if !convert then Some(price)
    else if factor.None? || factor.value == 0.0 then None
    else Some(price / factor.value + spotMid.value)
  }

  /** One merged row after the coercion of line 80 and the masked assignments of lines 85-95. */
  function Convert(m: MergedRow): OutRow {
    var convert := AsBool(m.convert);
    OutRow(m.price, m.spotMid, convert, m.factor, NewPrice(m.price.price, m.spotMid, convert, m.factor))
  }

  /**
   * Lines 79-95 as the source runs them: coerce the `convert_price` column in
   * place, fill `new_price` with nulls, then overwrite the rows selected by
   * the `no_convert` mask and then those selected by the `needs_convert` mask.
   */
  method ConvertPrices(rows: seq<MergedRow>) returns (out: seq<OutRow>)
    ensures |out| == |rows|
    ensures forall i :: 0 <= i < |rows| ==> out[i] == Convert(rows[i])
  {
    var n := |rows|;
    var convert := new bool[n];
    for i := 0 to n
      modifies convert
      invariant forall k :: 0 <= k < i ==> convert[k] == AsBool(rows[k].convert)
    {
      convert[i] := AsBool(rows[i].convert);
    }
    var newPrice := new Option<real>[n](_ => None);
    // no_convert = has_spot & ~convert_price
    for i := 0 to n
      modifies newPrice
      invariant forall k :: 0 <= k < i ==>
        newPrice[k] == if rows[k].spotMid.Some? && !convert[k] then Some(rows[k].price.price) else None
      invariant forall k :: i <= k < n ==> newPrice[k] == None
    {
      if rows[i].spotMid.Some? && !convert[i] {
        newPrice[i] := Some(rows[i].price.price);
      }
    }
    // needs_convert = has_spot & convert_price
    for i := 0 to n
      modifies newPrice
      invariant forall k :: 0 <= k < i ==> newPrice[k] == NewPrice(rows[k].price.price, rows[k].spotMid, convert[k], rows[k].factor)
      invariant forall k :: i <= k < n ==>
        newPrice[k] == if rows[k].spotMid.Some? && !convert[k] then Some(rows[k].price.price) else None
    {
      if rows[i].spotMid.Some? && convert[i] {
        var f := rows[i].factor;
        newPrice[i] := if f.Some? && f.value != 0.0 then Some(rows[i].price.price / f.value + rows[i].spotMid.value) else None;
      }
    }
    var c, np := convert[..], newPrice[..];
    out := seq(n, i requires 0 <= i < n => OutRow(rows[i].price, rows[i].spotMid, c[i], rows[i].factor, np[i]));
  }

  function AtOrAfter(start: int): OutRow -> bool {
    (r: OutRow) => start <= r.price.ts
  }

  function AtOrBefore(end: int): OutRow -> bool {
    (r: OutRow) => r.price.ts <= end
  }

  /** Both bounds inclusive; an absent bound does not restrict. */
  function InWindow(start: Option<int>, end: Option<int>): OutRow -> bool {
    (r: OutRow) => (start.None? || start.value <= r.price.ts) && (end.None? || r.price.ts <= end.value)
  }

  /** Lines 100-103: keep rows at or after `start` if given, then rows at or before `end` if given. */
  function WindowFilter(rows: seq<OutRow>, start: Option<int>, end: Option<int>): seq<OutRow> {
    var afterStart := if start.Some? then Filter(rows, AtOrAfter(start.value)) else rows;
    if end.Some? then Filter(afterStart, AtOrBefore(end.value)) else afterStart
  }

  /** The two optional filters select the same rows as the one window test, in their original order. */
  lemma WindowFilterIsFilter(rows: seq<OutRow>, start: Option<int>, end: Option<int>)
    ensures WindowFilter(rows, start, end) == Filter(rows, InWindow(start, end))
  {
    var w := InWindow(start, end);
    match (start, end)
    case (None, None) =>
      FilterAll(rows, w);
    case (Some(s), None) =>
      FilterFilter(rows, AtOrAfter(s), (_: OutRow) => true, w);
      FilterAll(Filter(rows, AtOrAfter(s)), (_: OutRow) => true);
    case (None, Some(e)) =>
      FilterFilter(rows, (_: OutRow) => true, AtOrBefore(e), w);
      FilterAll(rows, (_: OutRow) => true);
    case (Some(s), Some(e)) =>
      FilterFilter(rows, AtOrAfter(s), AtOrBefore(e), w);
  }

  /** The window filter keeps exactly the rows with `start <= timestamp` (if given) and `timestamp <= end` (if given). */
  lemma WindowFilterSelects(rows: seq<OutRow>, start: Option<int>, end: Option<int>)
    ensures var out := WindowFilter(rows, start, end);
            (forall i :: 0 <= i < |out| ==>
               out[i] in rows && (start.None? || start.value <= out[i].price.ts) && (end.None? || out[i].price.ts <= end.value)) &&
            (forall i ::
               0 <= i < |rows| && (start.None? || start.value <= rows[i].price.ts) && (end.None? || rows[i].price.ts <= end.value)
               ==> rows[i] in out)
  {
    WindowFilterIsFilter(rows, start, end);
    FilterMembers(rows, InWindow(start, end));
  }

  /**
   * The cuts keep the table's order and every row in the window once per
   * occurrence: output row `i` is input row `ix[i]`, the positions ascend
   * and are exactly those of the rows in the window.
   */
  lemma WindowFilterKeepsOrder(rows: seq<OutRow>, start: Option<int>, end: Option<int>)
    ensures var out, ix, w := WindowFilter(rows, start, end), Selected(rows, InWindow(start, end)), InWindow(start, end);
            |ix| == |out| &&
            (forall i :: 0 <= i < |ix| ==> ix[i] < |rows| && out[i] == rows[ix[i]] && w(rows[ix[i]])) &&
            (forall i, j :: 0 <= i < j < |ix| ==> ix[i] < ix[j]) &&
            (forall k :: 0 <= k < |rows| && w(rows[k]) ==> k in ix) &&
            (forall x :: multiset(out)[x] == if w(x) then multiset(rows)[x] else 0)
  {
    WindowFilterIsFilter(rows, start, end);
    FilterPositions(rows, InWindow(start, end));
    FilterCounts(rows, InWindow(start, end));
  }

  /** The output table of the rates pipeline before the window filter. */
  function Converted(prices: seq<PriceRow>, spots: seq<SpotRow>, rules: seq<Rule>): seq<OutRow> {
    var merged := LeftMerge(Align(SortBy(prices, PriceKey), SortBy(spots, SpotKey)), rules);
    seq(|merged|, i requires 0 <= i < |merged| => Convert(merged[i]))
  }

  /** The output table of the rates pipeline. */
  function RatesOutput(prices: seq<PriceRow>, spots: seq<SpotRow>, rules: seq<Rule>,
                       start: Option<int>, end: Option<int>): seq<OutRow> {
    WindowFilter(Converted(prices, spots, rules), start, end)
  }

  /** With rules keyed uniquely by pair: one output row per price row, in the stable (timestamp, ccy_pair) order. */
  lemma OutputRowsAndOrder(prices: seq<PriceRow>, spots: seq<SpotRow>, rules: seq<Rule>)
    requires UniqueRules(rules)
    ensures |Converted(prices, spots, rules)| == |prices|
    ensures forall i :: 0 <= i < |prices| ==> Converted(prices, spots, rules)[i].price == SortBy(prices, PriceKey)[i]
  {
    LeftMergeUnique(Align(SortBy(prices, PriceKey), SortBy(spots, SpotKey)), rules);
  }

  /**
   * `new_price` of the i-th sorted price row, in terms of its as-of match and
   * its rule: null without a match (whatever the rule says); the price when
   * the rule says no conversion; and null when the pair has no rule at all,
   * because the missing `convert_price` is coerced to True and the factor is
   * missing. The converting case is `MergedRowCases` applied through
   * `ConvertedAt`.
   */
  lemma ConversionCases(prices: seq<PriceRow>, spots: seq<SpotRow>, rules: seq<Rule>, i: nat)
    requires UniqueRules(rules) && i < |prices|
    ensures |Converted(prices, spots, rules)| == |prices|
    ensures var p, S := SortBy(prices, PriceKey)[i], SortBy(spots, SpotKey);
            AsOfMatch(S, p).None? ==> Converted(prices, spots, rules)[i].newPrice.None?
    ensures var p, S := SortBy(prices, PriceKey)[i], SortBy(spots, SpotKey);
            var r := Converted(prices, spots, rules)[i];
            MatchedMid(S, p).Some? && RuleFor(rules, p.pair).Some? && !RuleFor(rules, p.pair).value.convert ==>
              r.newPrice == Some(p.price)
    ensures var p := SortBy(prices, PriceKey)[i];
            var r := Converted(prices, spots, rules)[i];
            RuleFor(rules, p.pair).None? ==> r.convert && r.factor.None? && r.newPrice.None?
  {
    var P, S := SortBy(prices, PriceKey), SortBy(spots, SpotKey);
    ConvertedAt(prices, spots, rules, i);
    var rule, mid := RuleFor(rules, P[i].pair), MatchedMid(S, P[i]);
    MergedRowCases(AlignedRow(P[i], mid), rule);
  }

  /** The cases of `new_price` for one row merged with its rule (or with none). */
  lemma MergedRowCases(a: AlignedRow, rule: Option<Rule>)
    ensures var r := Convert(MergeOne(a, rule));
            a.spotMid.None? ==> r.newPrice.None?
    ensures var r := Convert(MergeOne(a, rule));
            a.spotMid.Some? && rule.Some? && !rule.value.convert ==> r.newPrice == Some(a.price.price)
    ensures var r := Convert(MergeOne(a, rule));
            a.spotMid.Some? && rule.Some? && rule.value.convert && rule.value.factor != 0.0 ==>
              r.newPrice == Some(a.price.price / rule.value.factor + a.spotMid.value)
    ensures var r := Convert(MergeOne(a, rule));
            rule.None? ==> r.convert && r.factor.None? && r.newPrice.None?
  {
  }

  /** With unique rules, the i-th output row is the i-th sorted price row, joined, merged and converted. */
  lemma ConvertedAt(prices: seq<PriceRow>, spots: seq<SpotRow>, rules: seq<Rule>, i: nat)
    requires UniqueRules(rules) && i < |prices|
    ensures |Converted(prices, spots, rules)| == |prices|
    ensures var P, S := SortBy(prices, PriceKey), SortBy(spots, SpotKey);
            Converted(prices, spots, rules)[i] ==
              Convert(MergeOne(AlignedRow(P[i], MatchedMid(S, P[i])), RuleFor(rules, P[i].pair)))
  {
    var P, S := SortBy(prices, PriceKey), SortBy(spots, SpotKey);
    LeftMergeUnique(Align(P, S), rules);
    assert Align(P, S)[i] == AlignedRow(P[i], MatchedMid(S, P[i]));
  }

  /** A worked example: 100 at factor 2 over a spot of 1.5 gives 51.5; unconverted it stays 100. */
  lemma ConversionExample()
    ensures NewPrice(100.0, Some(1.5), true, Some(2.0)) == Some(51.5)
    ensures NewPrice(100.0, Some(1.5), false, Some(2.0)) == Some(100.0)
    ensures NewPrice(100.0, None, true, Some(2.0)) == None
  {
  }

  /** `RatesProcessor.process` from the loaded tables to the returned table. */
  method Process(prices: seq<PriceRow>, spots: seq<SpotRow>, rules: seq<Rule>,
                 start: Option<int>, end: Option<int>) returns (out: seq<OutRow>)
    ensures out == RatesOutput(prices, spots, rules, start, end)
  {
    var P := SortBy(prices, PriceKey);
    var S := SortBy(spots, SpotKey);
    SortedPricesByTime(prices);
    SortedSpotsByTime(spots);
    var matches := AsOfJoin(P, S);
    var aligned := seq(|P|, i requires 0 <= i < |P| => AlignedRow(P[i], MidAt(S, matches[i])));
    assert aligned == Align(P, S);
    var merged := LeftMerge(aligned, rules);
    out := ConvertPrices(merged);
    assert out == Converted(prices, spots, rules);
    if start.Some? {
      out := Filter(out, AtOrAfter(start.value));
    }
    if end.Some? {
      out := Filter(out, AtOrBefore(end.value));
    }
  }
}
