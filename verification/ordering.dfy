/**
 * Sort keys. A row's key is the list of the values of the columns it is
 * sorted by, most significant first, compared lexicographically the way
 * `sort_values` compares them: strings by code point, timestamps by time
 * with a null timestamp (NaT) placed after every present one.
 */
module Ordering {
  import opened Wrappers

  /** One column value taking part in a sort key. */
  datatype Field = Text(s: string) | Stamp(t: Option<int>)

  /** The values of the sort columns of one row, most significant first. */
  type Key = seq<Field>

  ghost predicate IsTotalOrder<T(!new)>(le: (T, T) -> bool) {
    && (forall x, y :: le(x, y) || le(y, x))
    && (forall x, y :: le(x, y) && le(y, x) ==> x == y)
    && (forall x, y, z :: le(x, y) && le(y, z) ==> le(x, z))
  }

  /** Lexicographic order on sequences induced by `le` on their elements. */
  function LexLe<T(==)>(a: seq<T>, b: seq<T>, le: (T, T) -> bool): bool {
    || a == []
    || (b != [] && a[0] != b[0] && le(a[0], b[0]))
    || (b != [] && a[0] == b[0] && LexLe(a[1..], b[1..], le))
  }

  lemma {:induction false} LexTotal<T(!new)>(a: seq<T>, b: seq<T>, le: (T, T) -> bool)
    requires IsTotalOrder(le)
    ensures LexLe(a, b, le) || LexLe(b, a, le)
  {
    if a != [] && b != [] && a[0] == b[0] {
      LexTotal(a[1..], b[1..], le);
    }
  }

  lemma {:induction false} LexAntisymmetric<T(!new)>(a: seq<T>, b: seq<T>, le: (T, T) -> bool)
    requires IsTotalOrder(le)
    requires LexLe(a, b, le) && LexLe(b, a, le)
    ensures a == b
  {
    if a != [] && b != [] {
      assert a[0] == b[0];
      LexAntisymmetric(a[1..], b[1..], le);
      assert a == [a[0]] + a[1..] && b == [b[0]] + b[1..];
    }
  }

  lemma {:induction false} LexTransitive<T(!new)>(a: seq<T>, b: seq<T>, c: seq<T>, le: (T, T) -> bool)
    requires IsTotalOrder(le)
    requires LexLe(a, b, le) && LexLe(b, c, le)
    ensures LexLe(a, c, le)
  {
    if a != [] && a[0] == b[0] && b[0] == c[0] {
      LexTransitive(a[1..], b[1..], c[1..], le);
    }
  }

  function CharLe(x: char, y: char): bool { x <= y }

  /** Python's string order: lexicographic by code point. */
  function StrLe(a: string, b: string): bool { LexLe(a, b, CharLe) }

  /** Timestamps in ascending order, NaT last. */
  function StampLe(x: Option<int>, y: Option<int>): bool {
    match (x, y)
    case (Some(a), Some(b)) => a <= b
    case (Some(_), None) => true
    case (None, Some(_)) => false
    case (None, None) => true
  }

  /** Order of two values of one sort column (the two kinds are never compared with each other). */
  function FieldLe(x: Field, y: Field): bool {
    match (x, y)
    case (Text(a), Text(b)) => StrLe(a, b)
    case (Stamp(a), Stamp(b)) => StampLe(a, b)
    case (Text(_), Stamp(_)) => true
    case (Stamp(_), Text(_)) => false
  }

  /** Order of two rows by their sort keys. */
  function KeyLe(a: Key, b: Key): bool { LexLe(a, b, FieldLe) }

  lemma CharLeTotalOrder()
    ensures IsTotalOrder(CharLe)
  {
  }

  lemma FieldLeTotalOrder()
    ensures IsTotalOrder(FieldLe)
  {
    CharLeTotalOrder();
    forall x: Field, y: Field ensures FieldLe(x, y) || FieldLe(y, x) {
      if x.Text? && y.Text? { LexTotal(x.s, y.s, CharLe); }
    }
    forall x: Field, y: Field | FieldLe(x, y) && FieldLe(y, x) ensures x == y {
      if x.Text? && y.Text? { LexAntisymmetric(x.s, y.s, CharLe); }
    }
    forall x: Field, y: Field, z: Field | FieldLe(x, y) && FieldLe(y, z) ensures FieldLe(x, z) {
      if x.Text? && y.Text? && z.Text? { LexTransitive(x.s, y.s, z.s, CharLe); }
    }
  }

  lemma KeyLeReflexive(a: Key)
    ensures KeyLe(a, a)
  {
    FieldLeTotalOrder();
    LexTotal(a, a, FieldLe);
  }

  lemma KeyLeTotal(a: Key, b: Key)
    ensures KeyLe(a, b) || KeyLe(b, a)
  {
    FieldLeTotalOrder();
    LexTotal(a, b, FieldLe);
  }

  lemma KeyLeAntisymmetric(a: Key, b: Key)
    requires KeyLe(a, b) && KeyLe(b, a)
    ensures a == b
  {
    FieldLeTotalOrder();
    LexAntisymmetric(a, b, FieldLe);
  }

  lemma KeyLeTransitive(a: Key, b: Key, c: Key)
    requires KeyLe(a, b) && KeyLe(b, c)
    ensures KeyLe(a, c)
  {
    FieldLeTotalOrder();
    LexTransitive(a, b, c, FieldLe);
  }

  /** Rows ordered by their keys are ordered by the most significant column. */
  lemma KeyLeHead(a: Key, b: Key)
    requires a != [] && b != [] && KeyLe(a, b)
    ensures FieldLe(a[0], b[0])
  {
    FieldLeTotalOrder();
  }
}
