/**
 * `handleRequestSort`: a click on a column header of a sortable list view.
 */
module SortHeader {
  import opened Values
  import opened Comparator

  /** The `order` and `orderBy` state of a list view; F is its column type. */
  datatype SortState<F> = SortState(order: Order, orderBy: F)

  /**
   * Clicking `property` sorts descending when that column was already sorted
   * ascending, and ascending otherwise; the clicked column becomes the sort column.
   */
  function RequestSort<F(==)>(s: SortState<F>, property: F): (r: SortState<F>)
    ensures r.orderBy == property
    ensures r.order == Desc <==> s.orderBy == property && s.order == Asc
  {
    var isAsc := s.orderBy == property && s.order == Asc;
    SortState(if isAsc then Desc else Asc, property)
  }

  /** Clicking a different column always sorts it ascending. */
  lemma NewColumnSortsAscending<F>(s: SortState<F>, property: F)
    requires s.orderBy != property
    ensures RequestSort(s, property) == SortState(Asc, property)
  {
  }

  /** Repeated clicks on one column alternate the direction, starting from ascending on a new column. */
  lemma RepeatedClicksAlternate<F>(s: SortState<F>, property: F)
    ensures RequestSort(RequestSort(s, property), property).order != RequestSort(s, property).order
    ensures RequestSort(RequestSort(RequestSort(s, property), property), property) == RequestSort(s, property)
  {
  }

  /**
   * A second click on the same column reverses the comparator: every pair of rows
   * compares the opposite way.
   */
  lemma SecondClickReverses<F, R>(s: SortState<F>, property: F, key: R -> Value, a: R, b: R)
    ensures var first := RequestSort(s, property);
            var second := RequestSort(first, property);
            CompareBy(second.order, key, a, b) == -CompareBy(first.order, key, a, b)
  {
    AscNegatesDesc(key, a, b);
  }
}
