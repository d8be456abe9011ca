/**
 * The backward as-of join of `pd.merge_asof(price, spot, by='ccy_pair',
 * on='timestamp', direction='backward', tolerance=1h)`: each price row is
 * matched to the last spot row of its pair at or before its timestamp,
 * provided that row is at most one hour older.
 */
module AsOf {
  import opened Wrappers
  import opened Table
  import opened RatesRecords

  /** `pd.Timedelta('1h')`, in seconds. */
  const Tolerance: int := 3600

  /** A spot row the backward search may stop at for a price of `pair` at time `t`. */
  predicate Eligible(s: SpotRow, pair: string, t: int) {
    s.pair == pair && s.ts <= t
  }

  /** A spot row close enough to match a price: same pair, at most `Tolerance` seconds older. */
  predicate WithinTolerance(s: SpotRow, p: PriceRow) {
    s.pair == p.pair && p.ts - Tolerance <= s.ts <= p.ts
  }

  /** The index of the last eligible spot row, if any. */
  function LastAtOrBefore(S: seq<SpotRow>, pair: string, t: int): (r: Option<nat>)
    ensures r.Some? ==> r.value < |S| && Eligible(S[r.value], pair, t)
    ensures r.Some? ==> forall k :: r.value < k < |S| ==> !Eligible(S[k], pair, t)
    ensures r.None? ==> forall k :: 0 <= k < |S| ==> !Eligible(S[k], pair, t)
  {
    if S == [] then None
    else if Eligible(S[|S| - 1], pair, t) then Some(|S| - 1)
    else LastAtOrBefore(S[..|S| - 1], pair, t)
  }

  /**
   * The index of the spot row matched to `p`: the last eligible one, kept
   * only if it is within the tolerance (an older one is never used instead).
   */
  function AsOfMatch(S: seq<SpotRow>, p: PriceRow): (r: Option<nat>)
    ensures r.Some? ==> r.value < |S| && WithinTolerance(S[r.value], p)
    ensures r.Some? ==> forall k :: r.value < k < |S| ==> !Eligible(S[k], p.pair, p.ts)
  {
    match LastAtOrBefore(S, p.pair, p.ts)
    case None => None
    case Some(k) => if p.ts - S[k].ts <= Tolerance then Some(k) else None
  }

  /** On time-sorted spot rows, a price is matched exactly when some spot row of its pair is within the tolerance. */
  lemma AsOfMatchComplete(S: seq<SpotRow>, p: PriceRow)
    requires SpotsByTime(S)
    ensures AsOfMatch(S, p).Some? <==> exists k :: 0 <= k < |S| && WithinTolerance(S[k], p)
  {
    if k :| 0 <= k < |S| && WithinTolerance(S[k], p) {
      assert Eligible(S[k], p.pair, p.ts);
      var j := LastAtOrBefore(S, p.pair, p.ts).value;
      assert k <= j;
      assert S[k].ts <= S[j].ts;
    }
  }

  /** A spot row exactly one hour old matches; one a second older does not. */
  lemma ToleranceBoundary(p: PriceRow, mid: Option<real>)
    ensures AsOfMatch([SpotRow(p.ts - 3600, p.pair, mid)], p) == Some(0)
    ensures AsOfMatch([SpotRow(p.ts - 3601, p.pair, mid)], p) == None
  {
  }

  /**
   * Among spot rows sharing the matched row's timestamp and pair, the match
   * is the one that came last in the input table (the sort being stable).
   */
  lemma MatchIsLastOfItsTies(spots: seq<SpotRow>, p: PriceRow, k: nat)
    requires AsOfMatch(SortBy(spots, SpotKey), p) == Some(k)
    ensures k < |SortBy(spots, SpotKey)| && LastOfKey(spots, SpotKey, SortBy(spots, SpotKey)[k])
  {
    var S := SortBy(spots, SpotKey);
    NoTieAfterMatch(S, p, k);
    LastOfItsKey(spots, SpotKey, k);
  }

  /** No spot row after the matched one has the same timestamp and pair. */
  lemma NoTieAfterMatch(S: seq<SpotRow>, p: PriceRow, k: nat)
    requires AsOfMatch(S, p) == Some(k)
    ensures forall j :: k < j < |S| ==> !HasKey(SpotKey, SpotKey(S[k]))(S[j])
  {
    forall j | k < j < |S| ensures SpotKey(S[j]) != SpotKey(S[k]) {
      assert !Eligible(S[j], p.pair, p.ts);
      assert SpotKey(S[j])[0] != SpotKey(S[k])[0] || SpotKey(S[j])[1] != SpotKey(S[k])[1];
    }
  }

  /** The last spot row of a pair seen so far: the table merge_asof keeps while scanning. */
  ghost function LastWithPair(S: seq<SpotRow>, pair: string): (r: Option<nat>)
    ensures r.Some? ==> r.value < |S| && S[r.value].pair == pair
    ensures r.Some? ==> forall k :: r.value < k < |S| ==> S[k].pair != pair
    ensures r.None? ==> forall k :: 0 <= k < |S| ==> S[k].pair != pair
  {
    if S == [] then None
    else if S[|S| - 1].pair == pair then Some(|S| - 1)
    else LastWithPair(S[..|S| - 1], pair)
  }

  lemma LastWithPairExtend(S: seq<SpotRow>, j: nat, pair: string)
    requires j < |S|
    ensures LastWithPair(S[..j + 1], pair) == if S[j].pair == pair then Some(j) else LastWithPair(S[..j], pair)
  {
    assert S[..j + 1][..j] == S[..j];
  }

  function Lookup(last: map<string, nat>, pair: string): Option<nat> {
    if pair in last then Some(last[pair]) else None
  }

  /** Once the scan has passed exactly the spot rows at or before `t`, the last one seen of a pair is the backward match. */
  lemma ScannedPrefix(S: seq<SpotRow>, j: nat, pair: string, t: int)
    requires SpotsByTime(S) && j <= |S|
    requires forall k :: 0 <= k < j ==> S[k].ts <= t
    requires j == |S| || S[j].ts > t
    ensures LastWithPair(S[..j], pair) == LastAtOrBefore(S, pair, t)
  {
    var a := LastWithPair(S[..j], pair);
    var b := LastAtOrBefore(S, pair, t);
    forall k | j <= k < |S| ensures !Eligible(S[k], pair, t) {
      assert S[j].ts <= S[k].ts;
    }
    if a.Some? {
      assert S[..j][a.value] == S[a.value];
      assert Eligible(S[a.value], pair, t);
      assert b.Some?;
    }
  }

  /** The last row of the price's pair seen by the scan, dropped when too old, is the as-of match. */
  lemma ScannedMatch(S: seq<SpotRow>, j: nat, p: PriceRow, hit: Option<nat>)
    requires SpotsByTime(S) && j <= |S|
    requires forall k :: 0 <= k < j ==> S[k].ts <= p.ts
    requires j == |S| || S[j].ts > p.ts
    requires hit == LastWithPair(S[..j], p.pair)
    ensures hit.Some? ==> hit.value < |S|
    ensures AsOfMatch(S, p) == if hit.Some? && p.ts - S[hit.value].ts > Tolerance then None else hit
  {
    ScannedPrefix(S, j, p.pair, p.ts);
  }

  /**
   * The join as pandas runs it: one pass over the time-sorted prices, a
   * position in the time-sorted spot rows, advanced while the next spot row
   * is not later than the current price, and a table of the last spot row
   * seen for each pair.
   */
  method AsOfJoin(P: seq<PriceRow>, S: seq<SpotRow>) returns (m: seq<Option<nat>>)
    requires PricesByTime(P) && SpotsByTime(S)
    ensures |m| == |P|
    ensures forall i :: 0 <= i < |P| ==> m[i] == AsOfMatch(S, P[i])
  {
    var last: map<string, nat> := map[];
    var j := 0;
    m := [];
    for i := 0 to |P|
      invariant |m| == i && j <= |S|
      invariant forall k :: 0 <= k < i ==> m[k] == AsOfMatch(S, P[k])
      invariant forall q :: Lookup(last, q) == LastWithPair(S[..j], q)
      invariant forall k :: 0 <= k < j ==> i > 0 && S[k].ts <= P[i - 1].ts
    {
      assert forall k :: 0 <= k < j ==> S[k].ts <= P[i].ts by {
        if i > 0 {
          assert P[i - 1].ts <= P[i].ts;
        }
      }
      var hit;
      j, last, hit := MatchOne(S, j, last, P[i]);
      m := m + [hit];
    }
  }

  /** One price row: advance the scan to its timestamp, then take the last spot row of its pair if it is recent enough. */
  method MatchOne(S: seq<SpotRow>, j0: nat, last0: map<string, nat>, p: PriceRow)
    returns (j: nat, last: map<string, nat>, hit: Option<nat>)
    requires SpotsByTime(S) && j0 <= |S|
    requires forall k :: 0 <= k < j0 ==> S[k].ts <= p.ts
    requires forall q :: Lookup(last0, q) == LastWithPair(S[..j0], q)
    ensures j0 <= j <= |S|
    ensures forall k :: 0 <= k < j ==> S[k].ts <= p.ts
    ensures forall q :: Lookup(last, q) == LastWithPair(S[..j], q)
    ensures hit == AsOfMatch(S, p)
  {
    j, last := Advance(S, j0, p.ts, last0);
    hit := Lookup(last, p.pair);
    ScannedMatch(S, j, p, hit);
    if hit.Some? && p.ts - S[hit.value].ts > Tolerance {
      hit := None;
    }
  }

  /** The inner loop: move past every spot row at or before `t`, recording each as the last seen of its pair. */
  method Advance(S: seq<SpotRow>, j0: nat, t: int, last0: map<string, nat>) returns (j: nat, last: map<string, nat>)
    requires SpotsByTime(S) && j0 <= |S|
    requires forall k :: 0 <= k < j0 ==> S[k].ts <= t
    requires forall q :: Lookup(last0, q) == LastWithPair(S[..j0], q)
    ensures j0 <= j <= |S| && (j == |S| || S[j].ts > t)
    ensures forall k :: 0 <= k < j ==> S[k].ts <= t
    ensures forall q :: Lookup(last, q) == LastWithPair(S[..j], q)
  {
    j, last := j0, last0;
    while j < |S| && S[j].ts <= t
      invariant j0 <= j <= |S|
      invariant forall k :: 0 <= k < j ==> S[k].ts <= t
      invariant forall q :: Lookup(last, q) == LastWithPair(S[..j], q)
      decreases |S| - j
    {
      var last' := last[S[j].pair := j];
      forall q ensures Lookup(last', q) == LastWithPair(S[..j + 1], q) {
        LastWithPairExtend(S, j, q);
      }
      last := last';
      j := j + 1;
    }
  }
}
