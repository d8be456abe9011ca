/** The three input tables of the rates pipeline and the order they are sorted in. */
module RatesRecords {
  import opened Wrappers
  import opened Ordering
  import opened Table

  /** A quote; `ts` is its timestamp in seconds. Other price columns ride along unchanged and are not modelled. */
  datatype PriceRow = PriceRow(ts: int, pair: string, price: real)

  /** A spot snapshot; `mid` is its `spot_mid_rate` cell, which may be null. */
  datatype SpotRow = SpotRow(ts: int, pair: string, mid: Option<real>)

  /** A conversion rule for one currency pair. */
  datatype Rule = Rule(pair: string, convert: bool, factor: real)

  // The price and spot tables are two row types sorted by two separate
  // `sort_values` calls (lines 61 and 62); each keeps its own key, time-order
  // predicate and lemma so the as-of join can name the two tables apart.

  /** The key of `sort_values(['timestamp', 'ccy_pair'])` for a price row. */
  function PriceKey(p: PriceRow): Key {
    [Stamp(Some(p.ts)), Text(p.pair)]
  }

  /** The key of `sort_values(['timestamp', 'ccy_pair'])` for a spot row. */
  function SpotKey(s: SpotRow): Key {
    [Stamp(Some(s.ts)), Text(s.pair)]
  }

  ghost predicate PricesByTime(P: seq<PriceRow>) {
    forall i, j :: 0 <= i < j < |P| ==> P[i].ts <= P[j].ts
  }

  ghost predicate SpotsByTime(S: seq<SpotRow>) {
    forall i, j :: 0 <= i < j < |S| ==> S[i].ts <= S[j].ts
  }

  /** After the sort, the prices are in ascending time order, as merge_asof demands. */
  lemma SortedPricesByTime(prices: seq<PriceRow>)
    ensures PricesByTime(SortBy(prices, PriceKey))
  {
    var P := SortBy(prices, PriceKey);
    SortBySorted(prices, PriceKey);
    forall i, j | 0 <= i < j < |P| ensures P[i].ts <= P[j].ts {
      KeyLeHead(PriceKey(P[i]), PriceKey(P[j]));
    }
  }

  /** After the sort, the spot rows are in ascending time order, as merge_asof demands. */
  lemma SortedSpotsByTime(spots: seq<SpotRow>)
    ensures SpotsByTime(SortBy(spots, SpotKey))
  {
    var S := SortBy(spots, SpotKey);
    SortBySorted(spots, SpotKey);
    forall i, j | 0 <= i < j < |S| ensures S[i].ts <= S[j].ts {
      KeyLeHead(SpotKey(S[i]), SpotKey(S[j]));
    }
  }
}
