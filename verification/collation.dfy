/**
 * SQLite's BINARY collation for TEXT columns: two strings compare by
 * `memcmp` of their UTF-8 encodings, which orders them exactly as their
 * sequences of code points. Dates stored as `yyyy-MM-dd` text are ordered
 * this way by `ORDER BY start_date` and `ORDER BY visit_date`.
 */
module Collation {

  /** `a` sorts at or before `b` (lexicographic, a prefix first). */
  predicate Le(a: string, b: string)
    decreases |a|
  {
    |a| == 0 || (|b| > 0 && (a[0] < b[0] || (a[0] == b[0] && Le(a[1..], b[1..]))))
  }

  lemma {:induction false} LeReflexive(a: string)
    ensures Le(a, a)
    decreases |a|
  {
    if |a| > 0 {
      LeReflexive(a[1..]);
    }
  }

  lemma {:induction false} LeTotal(a: string, b: string)
    ensures Le(a, b) || Le(b, a)
    decreases |a|
  {
    if |a| > 0 && |b| > 0 && a[0] == b[0] {
      LeTotal(a[1..], b[1..]);
    }
  }

  lemma {:induction false} LeTransitive(a: string, b: string, c: string)
    requires Le(a, b) && Le(b, c)
    ensures Le(a, c)
    decreases |a|
  {
    if |a| > 0 && a[0] == b[0] && b[0] == c[0] {
      LeTransitive(a[1..], b[1..], c[1..]);
    }
  }

  lemma {:induction false} LeAntisymmetric(a: string, b: string)
    requires Le(a, b) && Le(b, a)
    ensures a == b
    decreases |a|
  {
    if |a| > 0 {
      LeAntisymmetric(a[1..], b[1..]);
      assert a == [a[0]] + a[1..];
      assert b == [b[0]] + b[1..];
    }
  }

  /** The direction of an `ORDER BY` clause. */
  datatype Direction = Asc | Desc

  /** In a result ordered by `dir`, a row with key `a` may precede a row with key `b`. */
  predicate InOrder(a: string, b: string, dir: Direction) {
    match dir
    case Asc => Le(a, b)
    case Desc => Le(b, a)
  }

  lemma InOrderTotal(a: string, b: string, dir: Direction)
    ensures InOrder(a, b, dir) || InOrder(b, a, dir)
  {
    LeTotal(a, b);
  }

  lemma InOrderTransitive(a: string, b: string, c: string, dir: Direction)
    requires InOrder(a, b, dir) && InOrder(b, c, dir)
    ensures InOrder(a, c, dir)
  {
    match dir
    case Asc => LeTransitive(a, b, c);
    case Desc => LeTransitive(c, b, a);
  }
}
