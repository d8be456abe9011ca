/**
 * Whole-table operations shared by both pipelines: row selection by a
 * boolean mask (`df[mask]`) and the stable sort `sort_values(..., kind='mergesort')`.
 */
module Table {
  import opened Ordering

  /** `s[mask]`: the rows satisfying `p`, in their original order. */
  function Filter<T>(s: seq<T>, p: T -> bool): (r: seq<T>)
    ensures |r| <= |s|
  {
    if s == [] then []
    else Filter(s[..|s| - 1], p) + (if p(s[|s| - 1]) then [s[|s| - 1]] else [])
  }

  /** The selected rows are exactly the rows of `s` satisfying `p`. */
  lemma {:induction false} FilterMembers<T>(s: seq<T>, p: T -> bool)
    ensures forall i :: 0 <= i < |Filter(s, p)| ==> Filter(s, p)[i] in s && p(Filter(s, p)[i])
    ensures forall i :: 0 <= i < |s| && p(s[i]) ==> s[i] in Filter(s, p)
  {
    if s != [] {
      FilterMembers(s[..|s| - 1], p);
      var f := Filter(s, p);
      forall i | 0 <= i < |f| ensures f[i] in s && p(f[i]) {
        if i < |Filter(s[..|s| - 1], p)| {
          assert f[i] == Filter(s[..|s| - 1], p)[i];
        }
      }
      forall i | 0 <= i < |s| && p(s[i]) ensures s[i] in f {
        if i < |s| - 1 {
          assert s[i] == s[..|s| - 1][i];
        }
      }
    }
  }

  /** A selected row occurs as often as in `s`, and a rejected one not at all. */
  lemma {:induction false} FilterCounts<T>(s: seq<T>, p: T -> bool)
    ensures forall x :: multiset(Filter(s, p))[x] == if p(x) then multiset(s)[x] else 0
  {
    if s != [] {
      var s' := s[..|s| - 1];
      FilterCounts(s', p);
      assert s == s' + [s[|s| - 1]];
    }
  }

  /** The positions of `s` whose rows satisfy `p`, in ascending order. */
  function Selected<T>(s: seq<T>, p: T -> bool): (ix: seq<nat>)
    ensures |ix| <= |s|
  {
    if s == [] then []
    else Selected(s[..|s| - 1], p) + (if p(s[|s| - 1]) then [|s| - 1] else [])
  }

  /**
   * The selection keeps row order: row `i` of the result is row `ix[i]` of
   * `s`, the positions strictly ascend, and they are exactly the positions
   * whose rows satisfy `p`.
   */
  lemma {:induction false} FilterPositions<T>(s: seq<T>, p: T -> bool)
    ensures var f, ix := Filter(s, p), Selected(s, p);
            |ix| == |f| &&
            (forall i :: 0 <= i < |ix| ==> ix[i] < |s| && f[i] == s[ix[i]] && p(s[ix[i]])) &&
            (forall i, j :: 0 <= i < j < |ix| ==> ix[i] < ix[j]) &&
            (forall k :: 0 <= k < |s| && p(s[k]) ==> k in ix)
  {
    if s != [] {
      var s' := s[..|s| - 1];
      FilterPositions(s', p);
      var f, ix := Filter(s, p), Selected(s, p);
      var f', ix' := Filter(s', p), Selected(s', p);
      assert forall i :: 0 <= i < |ix'| ==> ix[i] == ix'[i] && f[i] == f'[i] && s'[ix'[i]] == s[ix'[i]];
      forall k | 0 <= k < |s| && p(s[k]) ensures k in ix {
        if k < |s'| {
          assert s'[k] == s[k];
          assert k in ix';
        }
      }
    }
  }

  lemma {:induction false} FilterConcat<T>(a: seq<T>, b: seq<T>, p: T -> bool)
    ensures Filter(a + b, p) == Filter(a, p) + Filter(b, p)
  {
    if b != [] {
      var b' := b[..|b| - 1];
      assert (a + b)[..|a + b| - 1] == a + b';
      FilterConcat(a, b', p);
    } else {
      assert a + b == a;
    }
  }

  /** Applying two masks one after the other selects the rows satisfying both. */
  lemma {:induction false} FilterFilter<T>(s: seq<T>, p: T -> bool, q: T -> bool, both: T -> bool)
    requires forall x :: both(x) == (p(x) && q(x))
    ensures Filter(Filter(s, p), q) == Filter(s, both)
  {
    if s != [] {
      var s' := s[..|s| - 1];
      FilterFilter(s', p, q, both);
      FilterConcat(Filter(s', p), if p(s[|s| - 1]) then [s[|s| - 1]] else [], q);
    }
  }

  /** A mask every row satisfies keeps the table unchanged. */
  lemma {:induction false} FilterAll<T>(s: seq<T>, p: T -> bool)
    requires forall i :: 0 <= i < |s| ==> p(s[i])
    ensures Filter(s, p) == s
  {
    if s != [] {
      FilterAll(s[..|s| - 1], p);
    }
  }

  /** A mask no row satisfies selects nothing. */
  lemma FilterNone<T>(s: seq<T>, p: T -> bool)
    requires forall i :: 0 <= i < |s| ==> !p(s[i])
    ensures Filter(s, p) == []
  {
    FilterMembers(s, p);
  }

  /** If the row at `k` is the last one satisfying `p`, it is the last row selected. */
  lemma {:induction false} FilterLast<T>(s: seq<T>, p: T -> bool, k: nat)
    requires k < |s| && p(s[k])
    requires forall j :: k < j < |s| ==> !p(s[j])
    ensures Filter(s, p) != [] && Filter(s, p)[|Filter(s, p)| - 1] == s[k]
  {
    if k < |s| - 1 {
      FilterLast(s[..|s| - 1], p, k);
    }
  }

  ghost predicate SortedBy<T>(s: seq<T>, key: T -> Key) {
    forall i, j :: 0 <= i < j < |s| ==> KeyLe(key(s[i]), key(s[j]))
  }

  /**
   * Inserts `x` into `s` after every trailing row whose key is greater than
   * `x`'s, so that `x` lands after all rows with a key equal to its own.
   */
  function Insert<T>(x: T, s: seq<T>, key: T -> Key): (r: seq<T>)
    ensures |r| == |s| + 1
    ensures multiset(r) == multiset(s) + multiset{x}
  {
    if s == [] || KeyLe(key(s[|s| - 1]), key(x)) then s + [x]
    else
      var s' := s[..|s| - 1];
      assert s == s' + [s[|s| - 1]];
      Insert(x, s', key) + [s[|s| - 1]]
  }

  /** Stable sort of the rows by `key`: insertion sort, taking the rows in input order. */
  function SortBy<T>(s: seq<T>, key: T -> Key): (r: seq<T>)
    ensures |r| == |s|
    ensures multiset(r) == multiset(s)
  {
    if s == [] then []
    else
      assert s == s[..|s| - 1] + [s[|s| - 1]];
      Insert(s[|s| - 1], SortBy(s[..|s| - 1], key), key)
  }

  lemma {:induction false} InsertSorted<T>(x: T, s: seq<T>, key: T -> Key)
    requires SortedBy(s, key)
    ensures SortedBy(Insert(x, s, key), key)
  {
    if s == [] || KeyLe(key(s[|s| - 1]), key(x)) {
      forall i | 0 <= i < |s| ensures KeyLe(key(s[i]), key(x)) {
        if i < |s| - 1 { KeyLeTransitive(key(s[i]), key(s[|s| - 1]), key(x)); }
      }
    } else {
      var s', last := s[..|s| - 1], s[|s| - 1];
      InsertSorted(x, s', key);
      var r' := Insert(x, s', key);
      KeyLeTotal(key(last), key(x));
      forall y | y in r' ensures KeyLe(key(y), key(last)) {
        assert y in multiset(r');
        if y != x {
          assert y in multiset(s');
        }
      }
      assert Insert(x, s, key) == r' + [last];
    }
  }

  lemma {:induction false} SortBySorted<T>(s: seq<T>, key: T -> Key)
    ensures SortedBy(SortBy(s, key), key)
  {
    if s != [] {
      SortBySorted(s[..|s| - 1], key);
      InsertSorted(s[|s| - 1], SortBy(s[..|s| - 1], key), key);
    }
  }

  lemma SortedPrefix<T>(s: seq<T>, key: T -> Key)
    requires SortedBy(s, key) && s != []
    ensures SortedBy(s[..|s| - 1], key)
  {
    var s' := s[..|s| - 1];
    forall i, j | 0 <= i < j < |s'| ensures KeyLe(key(s'[i]), key(s'[j])) {
      assert s'[i] == s[i] && s'[j] == s[j];
    }
  }

  /** Sorting an already sorted table changes nothing. */
  lemma {:induction false} SortBySortedUnchanged<T>(s: seq<T>, key: T -> Key)
    requires SortedBy(s, key)
    ensures SortBy(s, key) == s
  {
    if s != [] {
      var s', x := s[..|s| - 1], s[|s| - 1];
      SortedPrefix(s, key);
      SortBySortedUnchanged(s', key);
      if s' != [] {
        assert KeyLe(key(s[|s| - 2]), key(x));
      }
      assert s == s' + [x];
    }
  }

  /** Every row of a sorted table whose last row is at most `x` is at most `x`. */
  lemma AllAtMost<T>(x: T, s: seq<T>, key: T -> Key, i: nat)
    requires SortedBy(s, key) && s != [] && KeyLe(key(s[|s| - 1]), key(x))
    requires i < |s|
    ensures KeyLe(key(s[i]), key(x))
  {
    if i < |s| - 1 { KeyLeTransitive(key(s[i]), key(s[|s| - 1]), key(x)); }
  }

  lemma InsertFilterAppend<T>(x: T, s: seq<T>, key: T -> Key, p: T -> bool)
    requires SortedBy(s, key)
    requires s == [] || KeyLe(key(s[|s| - 1]), key(x))
    ensures Filter(Insert(x, s, key), p) == if p(x) then Insert(x, Filter(s, p), key) else Filter(s, p)
  {
    assert Insert(x, s, key) == s + [x];
    FilterConcat(s, [x], p);
    var f := Filter(s, p);
    if p(x) && f != [] {
      var y := f[|f| - 1];
      FilterMembers(s, p);
      assert y in s;
      var i :| 0 <= i < |s| && s[i] == y;
      AllAtMost(x, s, key, i);
      assert Insert(x, f, key) == f + [x];
    }
  }

  lemma {:induction false} InsertFilter<T>(x: T, s: seq<T>, key: T -> Key, p: T -> bool)
    requires SortedBy(s, key)
    ensures Filter(Insert(x, s, key), p) == if p(x) then Insert(x, Filter(s, p), key) else Filter(s, p)
  {
    if s == [] || KeyLe(key(s[|s| - 1]), key(x)) {
      InsertFilterAppend(x, s, key, p);
    } else {
      var s', last := s[..|s| - 1], s[|s| - 1];
      InsertFilter(x, s', key, p);
      var r' := Insert(x, s', key);
      assert Insert(x, s, key) == r' + [last];
      FilterConcat(r', [last], p);
      var fs' := Filter(s', p);
      assert Filter(s, p) == fs' + (if p(last) then [last] else []);
      if p(x) && p(last) {
        var f := fs' + [last];
        assert f[..|f| - 1] == fs';
        assert Insert(x, f, key) == Insert(x, fs', key) + [last];
      } else if p(x) {
        assert [last][..0] == [];
        assert Filter([last], p) == [];
        assert Filter(r', p) == Insert(x, fs', key);
        assert Filter(Insert(x, s, key), p) == Filter(r', p) + [];
        assert Filter(s, p) == fs';
      } else {
        assert Filter(Insert(x, s, key), p) == fs' + (if p(last) then [last] else []);
      }
    }
  }

  /** Sorting commutes with selecting rows: this is what makes the sort stable. */
  lemma {:induction false} SortFilter<T>(s: seq<T>, key: T -> Key, p: T -> bool)
    ensures Filter(SortBy(s, key), p) == SortBy(Filter(s, p), key)
  {
    if s != [] {
      var s', last := s[..|s| - 1], s[|s| - 1];
      SortFilter(s', key, p);
      SortBySorted(s', key);
      InsertFilter(last, SortBy(s', key), key, p);
      var f := Filter(s, p);
      if p(last) {
        assert f == Filter(s', p) + [last];
        assert f[..|f| - 1] == Filter(s', p);
        assert SortBy(f, key) == Insert(last, SortBy(Filter(s', p), key), key);
      } else {
        assert f == Filter(s', p);
      }
    }
  }

  function HasKey<T>(key: T -> Key, k: Key): T -> bool {
    x => key(x) == k
  }

  /** Stability: rows with equal keys keep their relative input order. */
  lemma SortByStable<T>(s: seq<T>, key: T -> Key, k: Key)
    ensures Filter(SortBy(s, key), HasKey(key, k)) == Filter(s, HasKey(key, k))
  {
    SortFilter(s, key, HasKey(key, k));
    var f := Filter(s, HasKey(key, k));
    FilterMembers(s, HasKey(key, k));
    forall i, j | 0 <= i < j < |f| ensures KeyLe(key(f[i]), key(f[j])) {
      KeyLeReflexive(k);
    }
    SortBySortedUnchanged(f, key);
  }

  lemma {:induction false} InsertSameOrder<T>(x: T, s: seq<T>, k1: T -> Key, k2: T -> Key)
    requires forall i :: 0 <= i < |s| ==> KeyLe(k1(s[i]), k1(x)) == KeyLe(k2(s[i]), k2(x))
    ensures Insert(x, s, k1) == Insert(x, s, k2)
  {
    if s != [] {
      InsertSameOrder(x, s[..|s| - 1], k1, k2);
    }
  }

  /** Two keys that order the rows of `s` alike sort `s` into the same table. */
  lemma {:induction false} SortBySameOrder<T>(s: seq<T>, k1: T -> Key, k2: T -> Key)
    requires forall i, j :: 0 <= i < |s| && 0 <= j < |s| ==> KeyLe(k1(s[i]), k1(s[j])) == KeyLe(k2(s[i]), k2(s[j]))
    ensures SortBy(s, k1) == SortBy(s, k2)
  {
    if s != [] {
      var s', x := s[..|s| - 1], s[|s| - 1];
      SortBySameOrder(s', k1, k2);
      var r := SortBy(s', k1);
      forall i | 0 <= i < |r| ensures KeyLe(k1(r[i]), k1(x)) == KeyLe(k2(r[i]), k2(x)) {
        assert r[i] in multiset(s');
        var j :| 0 <= j < |s'| && s'[j] == r[i];
        assert s[j] == r[i];
      }
      InsertSameOrder(x, r, k1, k2);
    }
  }

  /** `x` is the last row of `s` whose key equals its own. */
  ghost predicate LastOfKey<T>(s: seq<T>, key: T -> Key, x: T) {
    var t := Filter(s, HasKey(key, key(x)));
    t != [] && t[|t| - 1] == x
  }

  /** A sorted row with no later row of the same key is the last input row with that key. */
  lemma LastOfItsKey<T>(s: seq<T>, key: T -> Key, k: nat)
    requires k < |SortBy(s, key)|
    requires forall j :: k < j < |SortBy(s, key)| ==> !HasKey(key, key(SortBy(s, key)[k]))(SortBy(s, key)[j])
    ensures LastOfKey(s, key, SortBy(s, key)[k])
  {
    var S := SortBy(s, key);
    var same := HasKey(key, key(S[k]));
    SortByStable(s, key, key(S[k]));
    FilterLast(S, same, k);
    var t := Filter(s, same);
    assert t == Filter(S, same);
  }
}
