/** The page arithmetic of the recommendation list (ten per page) and the page
    counters behind the Previous / Next buttons of every browsing mode. */
module Pagination {
  import opened PyLists

  const ItemsPerPage: int := 10

  /** `(len + items_per_page - 1) // items_per_page`. */
  function TotalPages(n: nat): nat {
    (n + ItemsPerPage - 1) / ItemsPerPage
  }

  /** `start_idx = (current_page - 1) * items_per_page`. */
  function PageStart(page: int): int {
    (page - 1) * ItemsPerPage
  }

  /** `end_idx = min(start_idx + items_per_page, len)`. */
  function PageEnd(page: int, n: nat): int {
    Min(PageStart(page) + ItemsPerPage, n)
  }

  /** `recommendations[start_idx:end_idx]`. */
  function PageItems<T>(recs: seq<T>, page: int): seq<T> {
    PySlice(recs, PageStart(page), PageEnd(page, |recs|))
  }

  /** The page count is the ceiling of n / 10: the pages before the last are
      full, and the last one holds at least one item. */
  lemma TotalPagesCeiling(n: nat)
    ensures TotalPages(n) * ItemsPerPage >= n
    ensures n > 0 ==> (TotalPages(n) - 1) * ItemsPerPage < n
    ensures n == 0 <==> TotalPages(n) == 0
  {
  }

  /** On every existing page the indices are ordered and in range, and the page
      holds between one and ten items: exactly the items from start to end. */
  lemma PageBounds<T>(recs: seq<T>, page: int)
    requires 1 <= page <= TotalPages(|recs|)
    ensures 0 <= PageStart(page) < PageEnd(page, |recs|) <= |recs|
    ensures PageEnd(page, |recs|) - PageStart(page) <= ItemsPerPage
    ensures PageItems(recs, page) == recs[PageStart(page)..PageEnd(page, |recs|)]
    ensures 1 <= |PageItems(recs, page)| <= ItemsPerPage
    ensures page < TotalPages(|recs|) ==> |PageItems(recs, page)| == ItemsPerPage
  {
    TotalPagesCeiling(|recs|);
  }

  /** The pages 1 .. last, one after another. */
  function PagesUpTo<T>(recs: seq<T>, last: nat): seq<T>
    decreases last
  {
    if last == 0 then [] else PagesUpTo(recs, last - 1) + PageItems(recs, last)
  }

  lemma {:induction false} PagesUpToPrefix<T>(recs: seq<T>, last: nat)
    requires last <= TotalPages(|recs|)
    ensures last > 0 ==> PagesUpTo(recs, last) == recs[..PageEnd(last, |recs|)]
    decreases last
  {
    if last > 0 {
      PageBounds(recs, last);
      if last > 1 {
        PagesUpToPrefix(recs, last - 1);
        PageBounds(recs, last - 1);
        assert PageEnd(last - 1, |recs|) == PageStart(last);
        assert recs[..PageStart(last)] + recs[PageStart(last)..PageEnd(last, |recs|)] == recs[..PageEnd(last, |recs|)];
      } else {
        assert [] + PageItems(recs, 1) == recs[..PageEnd(1, |recs|)];
      }
    }
  }

  /** Reading every page in turn shows every recommendation once, in order. */
  lemma PagesCoverAll<T>(recs: seq<T>)
    ensures PagesUpTo(recs, TotalPages(|recs|)) == recs
  {
    PagesUpToPrefix(recs, TotalPages(|recs|));
    TotalPagesCeiling(|recs|);
    if |recs| > 0 {
      assert PageEnd(TotalPages(|recs|), |recs|) == |recs|;
    }
  }

  /** Item i appears on page i / 10 + 1, at position i % 10. */
  lemma PageOfItem<T>(recs: seq<T>, i: nat)
    requires i < |recs|
    ensures 1 <= i / ItemsPerPage + 1 <= TotalPages(|recs|)
    ensures i % ItemsPerPage < |PageItems(recs, i / ItemsPerPage + 1)|
    ensures PageItems(recs, i / ItemsPerPage + 1)[i % ItemsPerPage] == recs[i]
  {
    TotalPagesCeiling(|recs|);
    PageBounds(recs, i / ItemsPerPage + 1);
  }

  // ---------------------------------------------------------------------------
  // The page counters

  /** The Previous button: `if page > 1: page -= 1`. */
  function PreviousPage(page: int): (r: int)
    ensures page >= 1 ==> r >= 1
    ensures page > 1 ==> r == page - 1
    ensures page <= 1 ==> r == page
  {
    if page > 1 then page - 1 else page
  }

  /** The bounded Next button: `if page < total_pages: page += 1`. */
  function NextPageWithin(page: int, total: int): (r: int)
    ensures page < total ==> r == page + 1
    ensures page >= total ==> r == page
  {
    if page < total then page + 1 else page
  }

  /** Both bounded buttons keep a page in 1 .. total in that range. */
  lemma ButtonsStayInRange(page: int, total: int)
    requires 1 <= page <= total
    ensures 1 <= PreviousPage(page) <= total
    ensures 1 <= NextPageWithin(page, total) <= total
    ensures PreviousPage(NextPageWithin(page, total)) == page || page == total
  {
  }

  /** A page counter kept in session state; a fresh one is on page 1. */
  class PageCursor {
    var page: int

    ghost predicate Valid()
      reads this
    {
      page >= 1
    }

    constructor()
      ensures Valid() && page == 1
    {
      page := 1;
    }

    /** Previous (and the step back after an empty page): never below page 1. */
    method Previous()
      requires Valid()
      modifies this
      ensures Valid() && page == PreviousPage(old(page))
    {
      if page > 1 {
        page := page - 1;
      }
    }

    /** Next where the page count is known. */
    method NextWithin(total: int)
      requires Valid()
      modifies this
      ensures Valid() && page == NextPageWithin(old(page), total)
    {
      if page < total {
        page := page + 1;
      }
    }

    /** Next where the page count is not known: always one more. */
    method Next()
      requires Valid()
      modifies this
      ensures Valid() && page == old(page) + 1
    {
      page := page + 1;
    }

    /** Back to the first page (a new query, filter or movie). */
    method Reset()
      modifies this
      ensures Valid() && page == 1
    {
      page := 1;
    }
  }
}
