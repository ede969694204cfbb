/**
 * The rows a sortable list view shows: `stableSort(rows, getComparator(order,
 * orderBy)).slice(page * rowsPerPage, page * rowsPerPage + rowsPerPage)`.
 * `key` reads column orderBy of a row.
 */
module ListView {
  import opened Values
  import opened Comparator
  import opened StableSorting
  import opened Pager

  /** `stableSort(rows, getComparator(order, orderBy))` */
  function SortedRows<R(!new)>(rows: seq<R>, order: Order, key: R -> Value): seq<R>
  {
    StableSorted(rows, GetComparator(order, key))
  }

  /** `visibleRows` */
  function VisibleRows<R(!new)>(rows: seq<R>, order: Order, key: R -> Value, page: nat, rowsPerPage: nat): seq<R>
  {
    Window(SortedRows(rows, order, key), page, rowsPerPage)
  }

  /** The rows are ordered by column `key` in direction `order`. */
  ghost predicate OrderedBy<R>(s: seq<R>, order: Order, key: R -> Value)
  {
    && (order == Asc ==> forall i, j :: 0 <= i < j < |s| ==> !Less(key(s[j]), key(s[i])))
    && (order == Desc ==> forall i, j :: 0 <= i < j < |s| ==> !Less(key(s[i]), key(s[j])))
  }

  /**
   * The sorted rows are a permutation of the rows, ordered by column orderBy in
   * the requested direction, with rows that tie on that column in input order.
   */
  lemma SortedRowsSpec<R(!new)>(rows: seq<R>, order: Order, key: R -> Value)
    ensures |SortedRows(rows, order, key)| == |rows|
    ensures multiset(SortedRows(rows, order, key)) == multiset(rows)
    ensures OrderedBy(SortedRows(rows, order, key), order, key)
    ensures forall i, j :: 0 <= i < j < |rows| && key(SortedRows(rows, order, key)[i]) == key(SortedRows(rows, order, key)[j]) ==>
              Origins(rows, GetComparator(order, key))[i] < Origins(rows, GetComparator(order, key))[j]
  {
    var cmp := GetComparator(order, key);
    var s := SortedRows(rows, order, key);
    StableSortedPermutation(rows, cmp);
    StableSortedOrdered(rows, cmp);
    StableSortedIsStable(rows, cmp);
    forall i, j | 0 <= i < j < |rows|
      ensures order == Asc ==> !Less(key(s[j]), key(s[i]))
      ensures order == Desc ==> !Less(key(s[i]), key(s[j]))
      ensures key(s[i]) == key(s[j]) ==> cmp(s[i], s[j]) == 0
    {
      assert cmp(s[i], s[j]) <= 0;
      LessAsymmetric(key(s[i]), key(s[j]));
    }
  }

  /** Every window of ordered rows is ordered. */
  lemma WindowOrdered<R>(s: seq<R>, order: Order, key: R -> Value, page: nat, rowsPerPage: nat)
    requires OrderedBy(s, order, key)
    ensures OrderedBy(Window(s, page, rowsPerPage), order, key)
  {
    var w := Window(s, page, rowsPerPage);
    var o := page * rowsPerPage;
    forall i, j | 0 <= i < j < |w|
      ensures order == Asc ==> !Less(key(w[j]), key(w[i]))
      ensures order == Desc ==> !Less(key(w[i]), key(w[j]))
    {
      assert w[i] == s[o + i] && w[j] == s[o + j];
    }
  }

  /**
   * The visible rows are the sorted rows from position page * rowsPerPage on,
   * at most rowsPerPage of them, none when that position is past the end; they
   * are rows of the input, in column order.
   */
  lemma VisibleRowsSpec<R(!new)>(rows: seq<R>, order: Order, key: R -> Value, page: nat, rowsPerPage: nat)
    ensures var v := VisibleRows(rows, order, key, page, rowsPerPage);
            && |v| <= rowsPerPage
            && (page * rowsPerPage >= |rows| ==> v == [])
            && (page * rowsPerPage < |rows| ==>
                  |v| == (if |rows| - page * rowsPerPage < rowsPerPage then |rows| - page * rowsPerPage else rowsPerPage))
            && (forall k :: 0 <= k < |v| ==> v[k] == SortedRows(rows, order, key)[page * rowsPerPage + k])
            && (forall k :: 0 <= k < |v| ==> v[k] in rows)
            && OrderedBy(v, order, key)
  {
    var s := SortedRows(rows, order, key);
    var v := Window(s, page, rowsPerPage);
    assert |s| == |rows| && multiset(s) == multiset(rows) && OrderedBy(s, order, key) by {
      SortedRowsSpec(rows, order, key);
    }
    WindowOrdered(s, order, key, page, rowsPerPage);
    forall k | 0 <= k < |v|
      ensures v[k] in rows
    {
      assert v[k] in multiset(s);
    }
  }

  /** `records.map(toRow)`: one row per record, in the same order. */
  function Project<D, R>(records: seq<D>, toRow: D -> R): (rows: seq<R>)
    ensures |rows| == |records|
    ensures forall k :: 0 <= k < |records| ==> rows[k] == toRow(records[k])
  {
    seq(|records|, k requires 0 <= k < |records| => toRow(records[k]))
  }

  /**
   * What a list view shows of its records: projected records, at most a page of
   * them, none past the end, ordered by the sort column.
   */
  lemma VisibleProjected<D, R(!new)>(records: seq<D>, toRow: D -> R, order: Order, key: R -> Value,
                                      page: nat, rowsPerPage: nat)
    ensures var v := VisibleRows(Project(records, toRow), order, key, page, rowsPerPage);
            && |v| <= rowsPerPage
            && (page * rowsPerPage >= |records| ==> v == [])
            && (forall k :: 0 <= k < |v| ==> v[k] in Project(records, toRow))
            && OrderedBy(v, order, key)
  {
    VisibleRowsSpec(Project(records, toRow), order, key, page, rowsPerPage);
  }
}
