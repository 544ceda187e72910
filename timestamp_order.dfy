/**
 * The order in which the store compares timestamps.
 *
 * Timestamps are kept in a text column and aggregated with SQLite's `max`,
 * which compares text with the BINARY collation: byte by byte over the
 * UTF-8 encoding, a proper prefix sorting first. For well-formed text that
 * order is the code-point order of the characters, which is what `Le`
 * states over `seq<char>`.
 */
module TimestampOrder {

  /** `a` sorts at or before `b`: lexicographic order on code points. */
  predicate Le(a: string, b: string)
    decreases |a|
  {
    |a| == 0 || (|b| > 0 && (a[0] < b[0] || (a[0] == b[0] && Le(a[1..], b[1..]))))
  }

  /** `a` sorts strictly before `b`. */
  predicate Lt(a: string, b: string)
  {
    Le(a, b) && a != b
  }

  lemma {:induction false} LeReflexive(a: string)
    ensures Le(a, a)
    decreases |a|
  {
    if |a| > 0 {
      LeReflexive(a[1..]);
    }
  }

  lemma {:induction false} LeAntisymmetric(a: string, b: string)
    requires Le(a, b) && Le(b, a)
    ensures a == b
    decreases |a|
  {
    if |a| > 0 {
      LeAntisymmetric(a[1..], b[1..]);
      assert a == [a[0]] + a[1..] && b == [b[0]] + b[1..];
    }
  }

  lemma {:induction false} LeTransitive(a: string, b: string, c: string)
    requires Le(a, b) && Le(b, c)
    ensures Le(a, c)
    decreases |a|
  {
    if |a| > 0 && a[0] == b[0] && b[0] == c[0] {
      LeTransitive(a[1..], b[1..], c[1..]);
    }
  }

  lemma {:induction false} LeTotal(a: string, b: string)
    ensures Le(a, b) || Le(b, a)
    decreases |a|
  {
    if |a| > 0 && |b| > 0 && a[0] == b[0] {
      LeTotal(a[1..], b[1..]);
    }
  }

  /** The larger of two timestamps, as SQLite's `max` keeps it. */
  function MaxTime(a: string, b: string): (m: string)
    ensures m == a || m == b
    ensures Le(a, m) && Le(b, m)
  {
    LeReflexive(a);
    LeReflexive(b);
    LeTotal(a, b);
    if Le(a, b) then b else a
  }

  /** A timestamp no later than another leaves the maximum at the other. */
  lemma MaxTimeAbsorbs(a: string, b: string)
    requires Le(b, a)
    ensures MaxTime(a, b) == a
  {
    if Le(a, b) {
      LeAntisymmetric(a, b);
    }
  }
}
