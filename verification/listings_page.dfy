/**
 * `ListingsPage`: the "Showing a-b of n" arithmetic and the choice between the
 * loading skeletons, the empty state and the results with their pagination.
 */
module ListingsPage {
  import opened Numbers
  import Pagination

  /** `startItem`: the position of the first car on the page. */
  function StartItem(page: int, pageSize: int): (r: int)
    ensures page >= 1 && pageSize >= 0 ==> r >= 1
    ensures page == 1 ==> r == 1
  {
    var before := (page - 1) * pageSize;
    assert page >= 1 && pageSize >= 0 ==> before >= 0;
    before + 1
  }

  /** `endItem`: the position of the last car on the page, capped at the total. */
  function EndItem(page: int, pageSize: int, total: int): (r: int)
    ensures r <= total && r <= page * pageSize
    ensures r == total || r == page * pageSize
  {
    Min(page * pageSize, total)
  }

  /** For a page that exists, the range lies in `1..total` and spans at most one page. */
  lemma ShownRangeBounds(page: int, pageSize: int, total: int)
    requires page >= 1 && pageSize >= 1
    requires (page - 1) * pageSize < total
    ensures var a, b := StartItem(page, pageSize), EndItem(page, pageSize, total);
      && 1 <= a <= b <= total
      && b - a + 1 <= pageSize
      && (b < total ==> b - a + 1 == pageSize)
  {
    assert (page - 1) * pageSize >= 0;
    assert page * pageSize == (page - 1) * pageSize + pageSize;
  }

  /** Consecutive pages continue where the previous one stopped. */
  lemma ConsecutivePagesAdjoin(page: int, pageSize: int, total: int)
    requires page >= 1 && page * pageSize < total
    ensures StartItem(page + 1, pageSize) == EndItem(page, pageSize, total) + 1
  {
  }

  /** The "Showing" line appears only when not loading and there is at least one car. */
  function ShowsRange(loading: bool, total: int): (r: bool)
    ensures loading ==> !r
    ensures !loading ==> (r <==> total >= 1)
  {
    !loading && total > 0
  }

  /** What fills the content area. */
  datatype Content =
    | Skeletons(count: int)
    | EmptyState
    | Results(cards: int, pagination: bool)

  /** The content branch: skeletons while loading, the empty state with no items, else the cards. */
  function ContentFor(loading: bool, itemCount: nat, pageSize: int, totalPages: int): (r: Content)
    ensures r.Skeletons? <==> loading
    ensures r.Skeletons? ==> r.count == pageSize
    ensures r.EmptyState? <==> !loading && itemCount == 0
    ensures r.Results? <==> !loading && itemCount > 0
    ensures r.Results? ==> r.cards == itemCount && (r.pagination <==> Pagination.Renders(totalPages))
  {
    if loading then Skeletons(pageSize)
    else if itemCount == 0 then EmptyState
    else Results(itemCount, Pagination.Renders(totalPages))
  }

  /** Pagination shows only beside results, and only for more than one page. */
  lemma PaginationOnlyWithResults(loading: bool, itemCount: nat, pageSize: int, totalPages: int)
    ensures var c := ContentFor(loading, itemCount, pageSize, totalPages);
      c.Results? && c.pagination <==> !loading && itemCount > 0 && totalPages > 1
  {
  }
}
