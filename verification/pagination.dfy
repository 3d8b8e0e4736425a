/**
 * The pagination bar under every table: the page count, the "previous"/"next"
 * availability flags, the "start-end of total" range, and the four navigation
 * buttons. Pages are numbered from 0; the range shown is 1-based.
 */
module Pagination {
  /** The options of the "Rows per page" select. */
  const PageSizeChoices: seq<nat> := [10, 20, 30, 40, 50]

  /** `Math.ceil(totalItems / pageSize)`: the fewest pages of `pageSize` rows that hold every item. */
  function TotalPages(totalItems: nat, pageSize: nat): (t: nat)
    requires pageSize > 0
    ensures t * pageSize >= totalItems
    ensures t == 0 || (t - 1) * pageSize < totalItems
  {
    var q := (totalItems + pageSize - 1) / pageSize;
    var rem := (totalItems + pageSize - 1) % pageSize;
    assert q * pageSize + rem == totalItems + pageSize - 1;
    assert (q - 1) * pageSize == q * pageSize - pageSize;
    q
  }

  /** The two bounds pin the page count down: it is the ceiling of the quotient. */
  lemma TotalPagesUnique(totalItems: nat, pageSize: nat, t: nat)
    requires pageSize > 0
    requires t * pageSize >= totalItems && (t == 0 || (t - 1) * pageSize < totalItems)
    ensures t == TotalPages(totalItems, pageSize)
  {
    var c := TotalPages(totalItems, pageSize);
    if t < c {
      assert (c - 1) * pageSize < totalItems;
      MulMonotone(t, c - 1, pageSize);
    } else if c < t {
      assert (t - 1) * pageSize < totalItems;
      MulMonotone(c, t - 1, pageSize);
    }
  }

  lemma MulMonotone(a: nat, b: nat, k: nat)
    requires a <= b
    ensures a * k <= b * k
  {
  }

  /** `canPrevious`: every page but the first has a predecessor. */
  predicate CanPrevious(currentPage: int) {
    currentPage > 0
  }

  /** `canNext`: every page but the last has a successor. */
  predicate CanNext(currentPage: int, totalPages: nat) {
    currentPage < totalPages - 1
  }

  /** A page that exists for this many pages. */
  predicate ValidPage(currentPage: int, totalPages: nat) {
    0 <= currentPage < totalPages
  }

  /**
   * On an existing page the flags say exactly whether there is a page before and
   * a page after this one.
   */
  lemma FlagsMatchNeighbours(currentPage: int, totalPages: nat)
    requires ValidPage(currentPage, totalPages)
    ensures CanPrevious(currentPage) <==> ValidPage(currentPage - 1, totalPages)
    ensures CanNext(currentPage, totalPages) <==> ValidPage(currentPage + 1, totalPages)
  {
  }

  /** With no items there are no pages; on page 0 both flags are off. */
  lemma EmptyList(pageSize: nat)
    requires pageSize > 0
    ensures TotalPages(0, pageSize) == 0
    ensures !CanPrevious(0) && !CanNext(0, TotalPages(0, pageSize))
  {
  }

  /** The "start-end of total" label, 1-based and inclusive. */
  datatype Range = Range(start: int, end: int)

  function Min(a: int, b: int): int {
    if a <= b then a else b
  }

  /** `currentPage * pageSize + 1` to `min((currentPage + 1) * pageSize, totalItems)`. */
  function DisplayedRange(currentPage: int, pageSize: nat, totalItems: nat): (r: Range)
    requires pageSize > 0
    ensures r.end <= totalItems
  {
    Range(currentPage * pageSize + 1, Min((currentPage + 1) * pageSize, totalItems))
  }

  /**
   * On an existing page the label is a non-empty range inside `1..totalItems`
   * spanning at most one page of rows.
   */
  lemma RangeBounds(currentPage: int, pageSize: nat, totalItems: nat)
    requires pageSize > 0 && ValidPage(currentPage, TotalPages(totalItems, pageSize))
    ensures var r := DisplayedRange(currentPage, pageSize, totalItems);
            1 <= r.start <= r.end <= totalItems && r.end - r.start < pageSize
  {
    var t := TotalPages(totalItems, pageSize);
    MulMonotone(currentPage, t - 1, pageSize);
    assert (currentPage + 1) * pageSize == currentPage * pageSize + pageSize;
  }

  /**
   * On an existing page the label covers exactly the 1-based positions of the
   * items that fall on that page.
   */
  lemma {:induction false} RangeIsPage(currentPage: int, pageSize: nat, totalItems: nat, i: int)
    requires pageSize > 0 && ValidPage(currentPage, TotalPages(totalItems, pageSize))
    ensures var r := DisplayedRange(currentPage, pageSize, totalItems);
            r.start <= i <= r.end <==>
              1 <= i <= totalItems && currentPage * pageSize <= i - 1 < (currentPage + 1) * pageSize
  {
    assert (currentPage + 1) * pageSize == currentPage * pageSize + pageSize;
  }

  /** The four navigation buttons. */
  datatype Button = First | Previous | Next | Last

  /** `disabled={!canPrevious}` on the first two buttons, `disabled={!canNext}` on the last two. */
  predicate Enabled(b: Button, currentPage: int, totalPages: nat) {
    match b
    case First => CanPrevious(currentPage)
    case Previous => CanPrevious(currentPage)
    case Next => CanNext(currentPage, totalPages)
    case Last => CanNext(currentPage, totalPages)
  }

  /** The page each button's `onPageChange` asks for. */
  function Target(b: Button, currentPage: int, totalPages: nat): int {
    match b
    case First => 0
    case Previous => currentPage - 1
    case Next => currentPage + 1
    case Last => totalPages - 1
  }

  /**
   * From an existing page, an enabled button moves to a different existing page:
   * navigation never leaves `[0, totalPages - 1]`.
   */
  lemma NavigationStaysInRange(b: Button, currentPage: int, totalPages: nat)
    requires ValidPage(currentPage, totalPages) && Enabled(b, currentPage, totalPages)
    ensures ValidPage(Target(b, currentPage, totalPages), totalPages)
    ensures Target(b, currentPage, totalPages) != currentPage
  {
  }

  /** On an existing page, all four buttons are disabled exactly when there is a single page. */
  lemma AllDisabledIffSinglePage(currentPage: int, totalPages: nat)
    requires ValidPage(currentPage, totalPages)
    ensures (forall b: Button :: !Enabled(b, currentPage, totalPages)) <==> totalPages == 1
  {
    if totalPages != 1 {
      assert currentPage > 0 || currentPage < totalPages - 1;
      if currentPage > 0 {
        assert Enabled(First, currentPage, totalPages);
      } else {
        assert Enabled(Next, currentPage, totalPages);
      }
    }
  }

  /** The table's pagination state: `{ pageIndex, pageSize }`. */
  datatype PageState = PageState(pageIndex: int, pageSize: nat)

  /** `onPageChange`: `setPagination(prev => ({ ...prev, pageIndex }))`. */
  function ChangePage(st: PageState, pageIndex: int): (r: PageState)
    ensures r.pageSize == st.pageSize && r.pageIndex == pageIndex
  {
    st.(pageIndex := pageIndex)
  }

  /** `onPageSizeChange`: `setPagination(prev => ({ ...prev, pageSize }))`; the page index is kept. */
  function ChangePageSize(st: PageState, pageSize: nat): (r: PageState)
    ensures r.pageIndex == st.pageIndex && r.pageSize == pageSize
  {
    st.(pageSize := pageSize)
  }

  /**
   * Because the page index survives a page-size change, a larger page size can
   * leave the table on a page that no longer exists: on page 1 of 15 items at 10
   * per page, switching to 20 per page shows the range 21-15.
   */
  lemma PageSizeChangeKeepsIndex()
    ensures ValidPage(1, TotalPages(15, 10))
    ensures var st := ChangePageSize(PageState(1, 10), 20);
            && !ValidPage(st.pageIndex, TotalPages(15, st.pageSize))
            && DisplayedRange(st.pageIndex, st.pageSize, 15) == Range(21, 15)
  {
    TotalPagesUnique(15, 10, 2);
    TotalPagesUnique(15, 20, 1);
  }

  /**
   * For every state and every new page size: the kept page index still names an
   * existing page exactly when that page's first item, at the new size, exists.
   */
  lemma PageSizeChangeValidIff(st: PageState, pageSize: nat, totalItems: nat)
    requires pageSize > 0
    ensures var r := ChangePageSize(st, pageSize);
            ValidPage(r.pageIndex, TotalPages(totalItems, pageSize)) <==>
            (0 <= st.pageIndex && st.pageIndex * pageSize < totalItems)
  {
    var t := TotalPages(totalItems, pageSize);
    if 0 <= st.pageIndex < t {
      MulMonotone(st.pageIndex, t - 1, pageSize);
    } else if 0 <= st.pageIndex {
      MulMonotone(t, st.pageIndex, pageSize);
    }
  }

  /** Button navigation from an existing page lands on an existing page, whatever the button. */
  lemma ButtonKeepsStateValid(st: PageState, b: Button, totalItems: nat)
    requires st.pageSize > 0 && ValidPage(st.pageIndex, TotalPages(totalItems, st.pageSize))
    requires Enabled(b, st.pageIndex, TotalPages(totalItems, st.pageSize))
    ensures var t := TotalPages(totalItems, st.pageSize);
            var st' := ChangePage(st, Target(b, st.pageIndex, t));
            ValidPage(st'.pageIndex, TotalPages(totalItems, st'.pageSize))
  {
    NavigationStaysInRange(b, st.pageIndex, TotalPages(totalItems, st.pageSize));
  }
}
