/** The arithmetic of the pagination bar: the "showing X to Y of N" bounds, the targets of the
    Previous and Next buttons, and when each is disabled. */
module Pagination {
  import opened Seqs

  /** `Math.ceil(n / d)` for a positive divisor. */
  function CeilDiv(n: nat, d: nat): (q: nat)
    requires d > 0
    ensures (q - 1) * d < n <= q * d || (n == 0 && q == 0)
  {
    (n + d - 1) / d
  }

  /** Page `page` (from 1) is among the first `CeilDiv(total, perPage)` pages exactly when the
      items before it do not use up the list. */
  lemma PageInRange(page: int, perPage: nat, total: nat)
    requires perPage > 0 && page >= 1
    ensures page <= CeilDiv(total, perPage) <==> (page - 1) * perPage < total
  {
    var q := CeilDiv(total, perPage);
    if page <= q && total > 0 {
      assert (page - 1) * perPage <= (q - 1) * perPage;
    }
  }

  /** The bar is drawn unless there are no items or no pages. */
  function Renders(totalItems: int, totalPages: int): (r: bool)
    ensures totalPages != 0 ==> (r <==> totalItems != 0)
    ensures totalPages == 0 ==> !r
  {
    !(totalItems == 0 || totalPages == 0)
  }

  /** The first item shown, counted from 1. */
  function StartItem(page: int, perPage: int, total: int): (r: int)
    ensures r <= total
  {
    Min((page - 1) * perPage + 1, total)
  }

  /** The last item shown, counted from 1. */
  function EndItem(page: int, perPage: int, total: int): (r: int)
    ensures r <= total
  {
    Min(page * perPage, total)
  }

  /** On a page that exists, the bounds are a non-empty range of at most `perPage` items. */
  lemma ShownRange(page: int, perPage: nat, total: nat)
    requires total > 0 && perPage > 0
    requires 1 <= page <= CeilDiv(total, perPage)
    ensures var start, end := StartItem(page, perPage, total), EndItem(page, perPage, total);
      start == (page - 1) * perPage + 1 && 1 <= start <= end <= total && end - start + 1 <= perPage
  {
    PageInRange(page, perPage, total);
    assert (page - 1) * perPage >= 0;
    assert page * perPage == (page - 1) * perPage + perPage;
  }

  /** The page the Previous button moves to. */
  function PreviousTarget(page: int): (r: int)
    ensures page >= 1 ==> 1 <= r <= page
    ensures page > 1 ==> r == page - 1
  {
    Max(1, page - 1)
  }

  /** The page the Next button moves to. */
  function NextTarget(page: int, totalPages: int): (r: int)
    ensures r <= totalPages
    ensures page < totalPages ==> r == page + 1
  {
    Min(totalPages, page + 1)
  }

  /** Previous is disabled with no pages, and on a page in range exactly when it would not move. */
  function PreviousDisabled(page: int, totalPages: int): (r: bool)
    ensures totalPages == 0 ==> r
    ensures 1 <= page <= totalPages ==> (r <==> PreviousTarget(page) == page)
  {
    page == 1 || totalPages == 0
  }

  /** Next is disabled with no pages, and on a page in range exactly when it would not move. */
  function NextDisabled(page: int, totalPages: int): (r: bool)
    ensures totalPages == 0 ==> r
    ensures 1 <= page <= totalPages ==> (r <==> NextTarget(page, totalPages) == page)
  {
    page == totalPages || totalPages == 0
  }
}
