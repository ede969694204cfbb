/**
 * Cell values of a table row and the ordering JavaScript's `<` gives them.
 *
 * Every column of every list view holds either numbers (ids, copies, ratings) or
 * strings (names, titles, dates as ISO text). Strings compare lexicographically,
 * character by character, a proper prefix being smaller; no locale collation.
 */
module Values {

  datatype Value = Num(n: int) | Str(s: string)

  /** `a < b` on two strings. */
  predicate StrLess(a: string, b: string)
    decreases |a|
  {
    |b| > 0 && (|a| == 0 || a[0] < b[0] || (a[0] == b[0] && StrLess(a[1..], b[1..])))
  }

  /**
   * `a < b` on two cell values. Within one column all values have the same kind,
   * so the mixed case is never reached; it orders numbers first so that the
   * relation is a strict total order on all values.
   */
  predicate Less(a: Value, b: Value)
  {
    match (a, b)
    case (Num(x), Num(y)) => x < y
    case (Str(x), Str(y)) => StrLess(x, y)
    case (Num(_), Str(_)) => true
    case (Str(_), Num(_)) => false
  }

  lemma {:induction false} StrLessIrreflexive(a: string)
    ensures !StrLess(a, a)
  {
    if |a| > 0 {
      StrLessIrreflexive(a[1..]);
    }
  }

  lemma {:induction false} StrLessAsymmetric(a: string, b: string)
    ensures StrLess(a, b) ==> !StrLess(b, a)
    decreases |a|
  {
    if |a| > 0 && |b| > 0 && a[0] == b[0] {
      StrLessAsymmetric(a[1..], b[1..]);
    }
  }

  lemma {:induction false} StrLessTransitive(a: string, b: string, c: string)
    ensures StrLess(a, b) && StrLess(b, c) ==> StrLess(a, c)
    decreases |a|
  {
    if |a| > 0 && |b| > 0 && |c| > 0 && a[0] == b[0] == c[0] {
      StrLessTransitive(a[1..], b[1..], c[1..]);
    }
  }

  lemma {:induction false} StrLessTotal(a: string, b: string)
    ensures a == b || StrLess(a, b) || StrLess(b, a)
    decreases |a|
  {
    if |a| > 0 && |b| > 0 && a[0] == b[0] {
      StrLessTotal(a[1..], b[1..]);
      if a[1..] == b[1..] {
        assert a == [a[0]] + a[1..] && b == [b[0]] + b[1..];
      }
    }
  }

  /** Less is irreflexive and asymmetric. */
  lemma LessAsymmetric(a: Value, b: Value)
    ensures !Less(a, a)
    ensures Less(a, b) ==> !Less(b, a)
  {
    if a.Str? {
      StrLessIrreflexive(a.s);
      if b.Str? {
        StrLessAsymmetric(a.s, b.s);
      }
    }
  }

  lemma LessTransitive(a: Value, b: Value, c: Value)
    ensures Less(a, b) && Less(b, c) ==> Less(a, c)
  {
    if a.Str? && b.Str? && c.Str? {
      StrLessTransitive(a.s, b.s, c.s);
    }
  }

  /** Exactly one of `a < b`, `a == b`, `b < a` holds. */
  lemma LessTrichotomy(a: Value, b: Value)
    ensures a == b || Less(a, b) || Less(b, a)
    ensures a == b ==> !Less(a, b) && !Less(b, a)
  {
    LessAsymmetric(a, b);
    if a.Str? && b.Str? {
      StrLessTotal(a.s, b.s);
    }
  }
}
