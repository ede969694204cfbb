/**
 * `stableSort(array, comparator)`: decorate every row with its input position,
 * sort the decorated array in place with a callback that falls back to the
 * positions when the comparator ties, then strip the positions again.
 *
 * The callback is a strict total order on decorated rows, so every correct sorting
 * algorithm produces the same array. The model sorts by insertion; the
 * specification is a functional insertion sort, and SortedPermutationUnique shows
 * that any sorted permutation (whatever the JavaScript engine's algorithm) equals it.
 */
module StableSorting {
  import opened Comparator

  /** A row paired with its position in the input: the `[el, index]` tuples. */
  datatype Entry<R> = Entry(row: R, index: int)

  /** `array.map((el, index) => [el, index])` */
  function Decorate<R>(rows: seq<R>): (es: seq<Entry<R>>)
    ensures |es| == |rows|
    ensures forall i :: 0 <= i < |rows| ==> es[i] == Entry(rows[i], i)
  {
    seq(|rows|, i requires 0 <= i < |rows| => Entry(rows[i], i))
  }

  /** `stabilizedThis.map((el) => el[0])` */
  function Strip<R>(es: seq<Entry<R>>): (rows: seq<R>)
    ensures |rows| == |es|
    ensures forall i :: 0 <= i < |es| ==> rows[i] == es[i].row
  {
    seq(|es|, i requires 0 <= i < |es| => es[i].row)
  }

  /** The callback handed to `stabilizedThis.sort`. */
  function EntryCompare<R>(cmp: (R, R) -> int, x: Entry<R>, y: Entry<R>): int
  {
    var order := cmp(x.row, y.row);
    if order != 0 then order else x.index - y.index
  }

  /** The callback puts x before y. */
  predicate Before<R>(cmp: (R, R) -> int, x: Entry<R>, y: Entry<R>)
  {
    EntryCompare(cmp, x, y) < 0
  }

  ghost predicate StrictlySorted<R>(cmp: (R, R) -> int, s: seq<Entry<R>>)
  {
    forall i, j :: 0 <= i < j < |s| ==> Before(cmp, s[i], s[j])
  }

  ghost predicate DistinctIndices<R>(s: seq<Entry<R>>)
  {
    forall i, j :: 0 <= i < j < |s| ==> s[i].index != s[j].index
  }

  /**
   * For a consistent comparator the callback is a strict total order on rows
   * with different positions.
   */
  lemma BeforeOrder<R(!new)>(cmp: (R, R) -> int, x: Entry<R>, y: Entry<R>, z: Entry<R>)
    requires Consistent(cmp)
    ensures !Before(cmp, x, x)
    ensures Before(cmp, x, y) ==> !Before(cmp, y, x)
    ensures x.index != y.index ==> Before(cmp, x, y) || Before(cmp, y, x)
    ensures Before(cmp, x, y) && Before(cmp, y, z) ==> Before(cmp, x, z)
  {
    var a, b, c := x.row, y.row, z.row;
    assert FlipsOnSwap(cmp, a, a) && FlipsOnSwap(cmp, a, b) && FlipsOnSwap(cmp, b, a);
    assert FlipsOnSwap(cmp, b, c) && FlipsOnSwap(cmp, c, b);
    assert FlipsOnSwap(cmp, a, c) && FlipsOnSwap(cmp, c, a);
    assert NotAfterTransitive(cmp, a, b, c);
    assert NotAfterTransitive(cmp, c, a, b) && NotAfterTransitive(cmp, b, c, a);
  }

  /** Inserts x in front of the first element it goes before. */
  function Insert<R>(cmp: (R, R) -> int, s: seq<Entry<R>>, x: Entry<R>): seq<Entry<R>>
  {
    if s == [] then [x]
    else if Before(cmp, x, s[0]) then [x] + s
    else [s[0]] + Insert(cmp, s[1..], x)
  }

  /** Functional insertion sort of the decorated rows: the specification of the in-place sort. */
  function InsertionSort<R>(cmp: (R, R) -> int, es: seq<Entry<R>>): seq<Entry<R>>
    decreases |es|
  {
    if es == [] then [] else Insert(cmp, InsertionSort(cmp, es[..|es| - 1]), es[|es| - 1])
  }

  /** A sorted sequence stays sorted with an element in front that goes before all of it. */
  lemma ConsSorted<R>(cmp: (R, R) -> int, h: Entry<R>, t: seq<Entry<R>>)
    requires StrictlySorted(cmp, t)
    requires forall y :: y in t ==> Before(cmp, h, y)
    ensures StrictlySorted(cmp, [h] + t)
  {
    var s := [h] + t;
    forall i, j | 0 <= i < j < |s|
      ensures Before(cmp, s[i], s[j])
    {
      assert s[j] == t[j - 1] && s[j] in t;
      if i > 0 {
        assert s[i] == t[i - 1];
      }
    }
  }

  /** The head of a sorted sequence goes before every element of its tail. */
  lemma HeadBeforeTail<R>(cmp: (R, R) -> int, s: seq<Entry<R>>)
    requires StrictlySorted(cmp, s) && |s| > 0
    ensures forall y :: y in s[1..] ==> Before(cmp, s[0], y)
  {
    forall y | y in s[1..]
      ensures Before(cmp, s[0], y)
    {
      var m :| 0 <= m < |s[1..]| && s[1..][m] == y;
      assert s[m + 1] == y;
    }
  }

  lemma {:induction false} InsertSorted<R(!new)>(cmp: (R, R) -> int, s: seq<Entry<R>>, x: Entry<R>)
    requires Consistent(cmp)
    requires StrictlySorted(cmp, s)
    requires forall y :: y in s ==> y.index != x.index
    ensures StrictlySorted(cmp, Insert(cmp, s, x))
    ensures multiset(Insert(cmp, s, x)) == multiset(s) + multiset{x}
    decreases |s|
  {
    if s == [] {
    } else if Before(cmp, x, s[0]) {
      HeadBeforeTail(cmp, s);
      forall y | y in s
        ensures Before(cmp, x, y)
      {
        if y != s[0] {
          assert y in s[1..] by { assert s == [s[0]] + s[1..]; }
          BeforeOrder(cmp, x, s[0], y);
        }
      }
      ConsSorted(cmp, x, s);
    } else {
      assert s == [s[0]] + s[1..];
      assert s[0] in s;
      BeforeOrder(cmp, x, s[0], x);
      HeadBeforeTail(cmp, s);
      InsertSorted(cmp, s[1..], x);
      var t := Insert(cmp, s[1..], x);
      forall y | y in t
        ensures Before(cmp, s[0], y)
      {
        assert y in multiset(t);
      }
      ConsSorted(cmp, s[0], t);
    }
  }

  /** Dropping the last entry keeps positions distinct, and none equals the last one's. */
  lemma DistinctSplit<R>(es: seq<Entry<R>>)
    requires DistinctIndices(es) && |es| > 0
    ensures DistinctIndices(es[..|es| - 1])
    ensures forall y :: y in es[..|es| - 1] ==> y.index != es[|es| - 1].index
  {
    var n := |es| - 1;
    forall y | y in es[..n]
      ensures y.index != es[n].index
    {
      var m :| 0 <= m < n && es[..n][m] == y;
    }
  }

  lemma MultisetTail<T>(s: seq<T>)
    requires |s| > 0
    ensures multiset(s[1..]) == multiset(s) - multiset{s[0]}
  {
    assert s == [s[0]] + s[1..];
  }

  lemma {:induction false} InsertionSortSorted<R(!new)>(cmp: (R, R) -> int, es: seq<Entry<R>>)
    requires Consistent(cmp)
    requires DistinctIndices(es)
    ensures StrictlySorted(cmp, InsertionSort(cmp, es))
    ensures multiset(InsertionSort(cmp, es)) == multiset(es)
    decreases |es|
  {
    if es != [] {
      var n := |es| - 1;
      var prefix, x := es[..n], es[n];
      var s := InsertionSort(cmp, prefix);
      assert StrictlySorted(cmp, s) && forall y :: y in s ==> y.index != x.index by {
        DistinctSplit(es);
        InsertionSortSorted(cmp, prefix);
        forall y | y in s
          ensures y.index != x.index
        {
          assert y in multiset(prefix);
        }
      }
      assert multiset(s) == multiset(prefix) by {
        DistinctSplit(es);
        InsertionSortSorted(cmp, prefix);
      }
      InsertSorted(cmp, s, x);
      assert es == prefix + [x];
    }
  }

  /** Two strictly sorted arrangements of the same entries start with the same entry. */
  lemma SortedHeadsAgree<R(!new)>(cmp: (R, R) -> int, xs: seq<Entry<R>>, ys: seq<Entry<R>>)
    requires Consistent(cmp)
    requires StrictlySorted(cmp, xs) && StrictlySorted(cmp, ys)
    requires multiset(xs) == multiset(ys) && |xs| > 0
    ensures |ys| > 0 && xs[0] == ys[0]
  {
    assert xs[0] in multiset(ys);
    assert ys[0] in multiset(xs);
    assert xs == [xs[0]] + xs[1..] && ys == [ys[0]] + ys[1..];
    HeadBeforeTail(cmp, xs);
    HeadBeforeTail(cmp, ys);
    BeforeOrder(cmp, xs[0], ys[0], xs[0]);
  }

  /**
   * Two strictly sorted arrangements of the same decorated rows are equal: the
   * output of the sort does not depend on the algorithm.
   */
  lemma {:induction false} SortedPermutationUnique<R(!new)>(cmp: (R, R) -> int, xs: seq<Entry<R>>, ys: seq<Entry<R>>)
    requires Consistent(cmp)
    requires StrictlySorted(cmp, xs) && StrictlySorted(cmp, ys)
    requires multiset(xs) == multiset(ys)
    ensures xs == ys
    decreases |xs|
  {
    if xs == [] {
      assert |ys| == |multiset(ys)| == 0;
    } else {
      SortedHeadsAgree(cmp, xs, ys);
      MultisetTail(xs);
      MultisetTail(ys);
      SortedPermutationUnique(cmp, xs[1..], ys[1..]);
      assert xs == [xs[0]] + xs[1..] && ys == [ys[0]] + ys[1..];
    }
  }

  lemma StripConcat<R>(a: seq<Entry<R>>, b: seq<Entry<R>>)
    ensures Strip(a + b) == Strip(a) + Strip(b)
  {
  }

  /** Stripping the positions maps equal multisets of entries to equal multisets of rows. */
  lemma {:induction false} StripPreservesMultiset<R>(xs: seq<Entry<R>>, ys: seq<Entry<R>>)
    requires multiset(xs) == multiset(ys)
    ensures multiset(Strip(xs)) == multiset(Strip(ys))
    decreases |xs|
  {
    assert |xs| == |multiset(xs)| == |multiset(ys)| == |ys|;
    if xs != [] {
      var x := xs[0];
      assert x in multiset(ys);
      var k :| 0 <= k < |ys| && ys[k] == x;
      var rest := ys[..k] + ys[k + 1..];
      assert ys == ys[..k] + [x] + ys[k + 1..];
      assert xs == [x] + xs[1..];
      assert multiset(xs) == multiset{x} + multiset(xs[1..]);
      assert multiset(ys) == multiset(ys[..k]) + multiset{x} + multiset(ys[k + 1..]);
      assert multiset(rest) == multiset(ys[..k]) + multiset(ys[k + 1..]);
      assert multiset(xs[1..]) == multiset(xs) - multiset{x};
      assert multiset(rest) == multiset(ys) - multiset{x};
      StripPreservesMultiset(xs[1..], rest);
      StripConcat([x], xs[1..]);
      StripConcat(ys[..k] + [x], ys[k + 1..]);
      StripConcat(ys[..k], [x]);
      StripConcat(ys[..k], ys[k + 1..]);
    }
  }

  /** stableSort(rows, cmp): the rows in the order the decorated sort determines. */
  function StableSorted<R>(rows: seq<R>, cmp: (R, R) -> int): seq<R>
  {
    Strip(InsertionSort(cmp, Decorate(rows)))
  }

  /** Input position of the row at each output position of StableSorted. */
  function Origins<R>(rows: seq<R>, cmp: (R, R) -> int): seq<int>
  {
    var es := InsertionSort(cmp, Decorate(rows));
    seq(|es|, k requires 0 <= k < |es| => es[k].index)
  }

  /**
   * Whatever the algorithm: a strictly sorted permutation of the decorated rows,
   * stripped, is StableSorted.
   */
  lemma AnySortAgrees<R(!new)>(rows: seq<R>, cmp: (R, R) -> int, es: seq<Entry<R>>)
    requires Consistent(cmp)
    requires StrictlySorted(cmp, es)
    requires multiset(es) == multiset(Decorate(rows))
    ensures Strip(es) == StableSorted(rows, cmp)
  {
    InsertionSortSorted(cmp, Decorate(rows));
    SortedPermutationUnique(cmp, es, InsertionSort(cmp, Decorate(rows)));
  }

  /** stableSort returns a permutation of its input. */
  lemma StableSortedPermutation<R(!new)>(rows: seq<R>, cmp: (R, R) -> int)
    requires Consistent(cmp)
    ensures |StableSorted(rows, cmp)| == |rows|
    ensures multiset(StableSorted(rows, cmp)) == multiset(rows)
  {
    var d := Decorate(rows);
    InsertionSortSorted(cmp, d);
    StripPreservesMultiset(InsertionSort(cmp, d), d);
    assert |InsertionSort(cmp, d)| == |multiset(InsertionSort(cmp, d))| == |multiset(d)| == |d|;
    assert Strip(d) == rows;
  }

  /** In stableSort's output the comparator is at most 0 for every pair in order. */
  lemma StableSortedOrdered<R(!new)>(rows: seq<R>, cmp: (R, R) -> int)
    requires Consistent(cmp)
    ensures forall i, j :: 0 <= i < j < |StableSorted(rows, cmp)| ==>
              cmp(StableSorted(rows, cmp)[i], StableSorted(rows, cmp)[j]) <= 0
  {
    var d := Decorate(rows);
    InsertionSortSorted(cmp, d);
    var es := InsertionSort(cmp, d);
    forall i, j | 0 <= i < j < |es|
      ensures cmp(es[i].row, es[j].row) <= 0
    {
      assert Before(cmp, es[i], es[j]);
    }
  }

  /**
   * Stability: each output row is the input row at its origin, the origins are
   * distinct positions of the input, and rows the comparator ties keep their input
   * order.
   */
  lemma StableSortedIsStable<R(!new)>(rows: seq<R>, cmp: (R, R) -> int)
    requires Consistent(cmp)
    ensures |Origins(rows, cmp)| == |StableSorted(rows, cmp)| == |rows|
    ensures forall k :: 0 <= k < |rows| ==>
              0 <= Origins(rows, cmp)[k] < |rows| && StableSorted(rows, cmp)[k] == rows[Origins(rows, cmp)[k]]
    ensures forall i, j :: 0 <= i < j < |rows| ==> Origins(rows, cmp)[i] != Origins(rows, cmp)[j]
    ensures forall i, j :: 0 <= i < j < |rows| && cmp(StableSorted(rows, cmp)[i], StableSorted(rows, cmp)[j]) == 0 ==>
              Origins(rows, cmp)[i] < Origins(rows, cmp)[j]
  {
    var d := Decorate(rows);
    InsertionSortSorted(cmp, d);
    var es := InsertionSort(cmp, d);
    assert |es| == |multiset(es)| == |multiset(d)| == |rows|;
    forall k | 0 <= k < |es|
      ensures 0 <= es[k].index < |rows| && es[k].row == rows[es[k].index]
    {
      assert es[k] in multiset(d);
      var m :| 0 <= m < |d| && d[m] == es[k];
    }
    forall i, j | 0 <= i < j < |es|
      ensures es[i].index != es[j].index
    {
      assert Before(cmp, es[i], es[j]);
      if es[i].index == es[j].index {
        assert es[i] == es[j];
        BeforeOrder(cmp, es[i], es[j], es[i]);
      }
    }
    forall i, j | 0 <= i < j < |es| && cmp(es[i].row, es[j].row) == 0
      ensures es[i].index < es[j].index
    {
      assert Before(cmp, es[i], es[j]);
    }
  }

  /** When the comparator ties every pair of rows, stableSort leaves the input order alone. */
  lemma AllTiedKeepsInputOrder<R(!new)>(rows: seq<R>, cmp: (R, R) -> int)
    requires Consistent(cmp)
    requires forall i, j :: 0 <= i < |rows| && 0 <= j < |rows| ==> cmp(rows[i], rows[j]) == 0
    ensures StableSorted(rows, cmp) == rows
  {
    var d := Decorate(rows);
    assert StrictlySorted(cmp, d) by {
      forall i, j | 0 <= i < j < |d|
        ensures Before(cmp, d[i], d[j])
      {
        assert cmp(rows[i], rows[j]) == 0;
      }
    }
    AnySortAgrees(rows, cmp, d);
    assert Strip(d) == rows;
  }

  /** The sequence with the entries at positions i and j exchanged. */
  function Swapped<T>(s: seq<T>, i: int, j: int): (t: seq<T>)
    requires 0 <= i < |s| && 0 <= j < |s|
    ensures |t| == |s| && t[i] == s[j] && t[j] == s[i]
    ensures forall k :: 0 <= k < |s| && k != i && k != j ==> t[k] == s[k]
  {
    s[i := s[j]][j := s[i]]
  }

  /** Exchanging two entries keeps the multiset and the distinctness of positions. */
  lemma SwapKeeps<R>(s: seq<Entry<R>>, i: int, j: int)
    requires 0 <= i < j < |s|
    requires DistinctIndices(s)
    ensures multiset(Swapped(s, i, j)) == multiset(s)
    ensures DistinctIndices(Swapped(s, i, j))
  {
    var t := Swapped(s, i, j);
    assert s == s[..i] + [s[i]] + s[i + 1..j] + [s[j]] + s[j + 1..];
    assert t == s[..i] + [s[j]] + s[i + 1..j] + [s[i]] + s[j + 1..];
    forall p, q | 0 <= p < q < |t|
      ensures t[p].index != t[q].index
    {
      var p' := if p == i then j else if p == j then i else p;
      var q' := if q == i then j else if q == j then i else q;
      assert t[p] == s[p'] && t[q] == s[q'] && p' != q';
    }
  }

  /** During insertion of position i: all pairs in a[..i+1] not involving j are in order. */
  ghost predicate SortedExcept<R>(cmp: (R, R) -> int, s: seq<Entry<R>>, j: int, i: int)
    requires 0 <= j <= i < |s|
  {
    forall p, q :: 0 <= p < q <= i && p != j && q != j ==> Before(cmp, s[p], s[q])
  }

  /** During insertion of position i: the moving entry at j goes before everything after it. */
  ghost predicate BeforeRest<R>(cmp: (R, R) -> int, s: seq<Entry<R>>, j: int, i: int)
    requires 0 <= j <= i < |s|
  {
    forall q :: j < q <= i ==> Before(cmp, s[j], s[q])
  }

  /** The state of the inner loop while the entry from position i sits at position j. */
  ghost predicate Inserting<R>(cmp: (R, R) -> int, s: seq<Entry<R>>, j: int, i: int)
  {
    && 0 <= j <= i < |s|
    && DistinctIndices(s)
    && SortedExcept(cmp, s, j, i)
    && BeforeRest(cmp, s, j, i)
  }

  /** One step of the inner loop: moving the entry one place left keeps the loop state. */
  lemma SwapStep<R>(cmp: (R, R) -> int, s: seq<Entry<R>>, j: int, i: int)
    requires Inserting(cmp, s, j, i) && 0 < j
    requires Before(cmp, s[j], s[j - 1])
    ensures Inserting(cmp, Swapped(s, j - 1, j), j - 1, i)
    ensures multiset(Swapped(s, j - 1, j)) == multiset(s)
  {
    var t := Swapped(s, j - 1, j);
    SwapKeeps(s, j - 1, j);
    forall p, q | 0 <= p < q <= i && p != j - 1 && q != j - 1
      ensures Before(cmp, t[p], t[q])
    {
      if q == j {
        assert t[q] == s[j - 1] && t[p] == s[p];
      } else if p == j {
        assert t[p] == s[j - 1] && t[q] == s[q];
      } else {
        assert t[p] == s[p] && t[q] == s[q];
      }
    }
  }

  /** The inner loop has stopped: the prefix a[..i+1] is sorted. */
  lemma InsertDone<R(!new)>(cmp: (R, R) -> int, s: seq<Entry<R>>, j: int, i: int)
    requires Consistent(cmp)
    requires Inserting(cmp, s, j, i)
    requires j == 0 || !Before(cmp, s[j], s[j - 1])
    ensures StrictlySorted(cmp, s[..i + 1])
  {
    if 0 < j {
      BeforeOrder(cmp, s[j - 1], s[j], s[j - 1]);
    }
    forall p, q | 0 <= p < q <= i
      ensures Before(cmp, s[p], s[q])
    {
      if q == j && p < j - 1 {
        BeforeOrder(cmp, s[p], s[j - 1], s[j]);
      }
    }
  }

  /** Moves the entry at position i left until a[..i+1] is sorted. */
  method InsertInPlace<R(!new)>(a: array<Entry<R>>, i: int, cmp: (R, R) -> int)
    requires Consistent(cmp)
    requires 0 <= i < a.Length
    requires StrictlySorted(cmp, a[..i]) && DistinctIndices(a[..])
    modifies a
    ensures StrictlySorted(cmp, a[..i + 1]) && DistinctIndices(a[..])
    ensures multiset(a[..]) == multiset(old(a[..]))
  {
    var j := i;
    assert Inserting(cmp, a[..], j, i);
    while 0 < j && Before(cmp, a[j], a[j - 1])
      invariant Inserting(cmp, a[..], j, i)
      invariant multiset(a[..]) == multiset(old(a[..]))
    {
      ghost var s := a[..];
      SwapStep(cmp, s, j, i);
      a[j - 1], a[j] := a[j], a[j - 1];
      assert a[..] == Swapped(s, j - 1, j);
      j := j - 1;
    }
    InsertDone(cmp, a[..], j, i);
  }

  /** Sorts the decorated rows in place, by insertion. */
  method SortInPlace<R(!new)>(a: array<Entry<R>>, cmp: (R, R) -> int)
    requires Consistent(cmp)
    requires DistinctIndices(a[..])
    modifies a
    ensures StrictlySorted(cmp, a[..])
    ensures multiset(a[..]) == multiset(old(a[..]))
  {
    var i := 0;
    while i < a.Length
      invariant 0 <= i <= a.Length
      invariant StrictlySorted(cmp, a[..i])
      invariant DistinctIndices(a[..])
      invariant multiset(a[..]) == multiset(old(a[..]))
    {
      InsertInPlace(a, i, cmp);
      i := i + 1;
    }
    assert a[..] == a[..a.Length];
  }

  /** stableSort(array, comparator) */
  method StableSort<R(!new)>(rows: seq<R>, cmp: (R, R) -> int) returns (sorted: seq<R>)
    requires Consistent(cmp)
    ensures sorted == StableSorted(rows, cmp)
    ensures |sorted| == |rows| && multiset(sorted) == multiset(rows)
    ensures forall i, j :: 0 <= i < j < |sorted| ==> cmp(sorted[i], sorted[j]) <= 0
  {
    var stabilized := new Entry<R>[|rows|](i requires 0 <= i < |rows| => Entry(rows[i], i));
    assert stabilized[..] == Decorate(rows);
    SortInPlace(stabilized, cmp);
    AnySortAgrees(rows, cmp, stabilized[..]);
    sorted := Strip(stabilized[..]);
    StableSortedPermutation(rows, cmp);
    StableSortedOrdered(rows, cmp);
  }
}
