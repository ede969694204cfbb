/**
 * The comparator every sortable list view builds from its `order` and `orderBy`
 * state: `descendingComparator` and `getComparator`.
 */
module Comparator {
  import opened Values

  datatype Order = Asc | Desc

  /**
   * descendingComparator on the two cells of column orderBy: -1 when b's cell is
   * smaller than a's, 1 when it is greater, 0 otherwise.
   */
  function DescendingComparator(a: Value, b: Value): (r: int)
    ensures -1 <= r <= 1
    ensures r < 0 <==> Less(b, a)
    ensures r > 0 <==> Less(a, b)
    ensures r == 0 <==> a == b
  {
    LessTrichotomy(a, b);
    LessAsymmetric(a, b);
    if Less(b, a) then -1 else if Less(a, b) then 1 else 0
  }

  /**
   * The comparator getComparator(order, orderBy) returns, applied to rows a and b;
   * `key` reads column orderBy of a row. Negative means a is shown before b.
   */
  function CompareBy<R>(order: Order, key: R -> Value, a: R, b: R): (r: int)
    ensures order == Asc ==> (r < 0 <==> Less(key(a), key(b)))
    ensures order == Desc ==> (r < 0 <==> Less(key(b), key(a)))
    ensures r == 0 <==> key(a) == key(b)
  {
    var d := DescendingComparator(key(a), key(b));
    if order == Desc then d else -d
  }

  /** Swapping the arguments of cmp flips the sign of its result. */
  ghost predicate FlipsOnSwap<R>(cmp: (R, R) -> int, a: R, b: R)
  {
    cmp(a, b) < 0 <==> cmp(b, a) > 0
  }

  /** "Not after" is transitive through b. */
  ghost predicate NotAfterTransitive<R>(cmp: (R, R) -> int, a: R, b: R, c: R)
  {
    cmp(a, b) <= 0 && cmp(b, c) <= 0 ==> cmp(a, c) <= 0
  }

  /**
   * What Array.prototype.sort needs of a comparator for its result to be
   * well defined: swapping the arguments flips the sign, and "not after" is
   * transitive.
   */
  ghost predicate Consistent<R(!new)>(cmp: (R, R) -> int)
  {
    && (forall a, b :: FlipsOnSwap(cmp, a, b))
    && (forall a, b, c :: NotAfterTransitive(cmp, a, b, c))
  }

  /** getComparator(order, orderBy): a consistent comparator ordering rows by column orderBy. */
  function GetComparator<R(!new)>(order: Order, key: R -> Value): (cmp: (R, R) -> int)
    ensures Consistent(cmp)
    ensures forall a, b :: cmp(a, b) == CompareBy(order, key, a, b)
  {
    CompareByConsistent(order, key);
    (a, b) => CompareBy(order, key, a, b)
  }

  lemma CompareByConsistent<R(!new)>(order: Order, key: R -> Value)
    ensures Consistent((a, b) => CompareBy(order, key, a, b))
  {
    var cmp := (a, b) => CompareBy(order, key, a, b);
    forall a, b
      ensures FlipsOnSwap(cmp, a, b)
    {
      CompareBySwap(order, key, a, b);
    }
    forall a, b, c
      ensures NotAfterTransitive(cmp, a, b, c)
    {
      LessTransitive(key(a), key(b), key(c));
      LessTransitive(key(c), key(b), key(a));
      LessTrichotomy(key(a), key(b));
      LessTrichotomy(key(b), key(c));
      LessTrichotomy(key(a), key(c));
      LessAsymmetric(key(a), key(c));
    }
  }

  /** Swapping the two rows negates the comparator's result. */
  lemma CompareBySwap<R>(order: Order, key: R -> Value, a: R, b: R)
    ensures CompareBy(order, key, a, b) == -CompareBy(order, key, b, a)
  {
    LessTrichotomy(key(a), key(b));
    LessAsymmetric(key(a), key(b));
  }

  /** The 'asc' comparator is the 'desc' comparator negated. */
  lemma AscNegatesDesc<R>(key: R -> Value, a: R, b: R)
    ensures CompareBy(Asc, key, a, b) == -CompareBy(Desc, key, a, b)
  {
  }
}
