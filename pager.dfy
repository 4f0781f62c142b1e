/**
 * `Pager`: a page index and a page size, immutable once built, with the
 * Lombok `@Builder.Default` values 0 and 10 and no validation.
 */
module Pagers {
  import opened JavaLang

  const DEFAULT_PAGE: int32 := 0
  const DEFAULT_ITEMS_PER_PAGE: int32 := 10

  /**
   * The all-arguments constructor `Pager(page, itemsPerPage)` stores both
   * values as given (negative ones included); the destructors are the getters.
   */
  datatype Pager = Pager(page: int32, itemsPerPage: int32)

  /** `Pager.builder().build()`. */
  function DefaultPager(): (p: Pager)
    ensures p.page == 0 && p.itemsPerPage == 10
  {
    Pager(DEFAULT_PAGE, DEFAULT_ITEMS_PER_PAGE)
  }

  /**
   * The Lombok-generated `Pager.PagerBuilder`: each field remembers whether it
   * was set; `build()` uses the default for a field that was not.
   */
  class PagerBuilder {
    var pageValue: int32
    var pageSet: bool
    var itemsPerPageValue: int32
    var itemsPerPageSet: bool

    /** `Pager.builder()`. */
    constructor ()
      ensures !pageSet && !itemsPerPageSet
    {
      pageValue, pageSet := 0, false;
      itemsPerPageValue, itemsPerPageSet := 0, false;
    }

    /** `builder.page(p)`. */
    method Page(p: int32)
      modifies this
      ensures pageSet && pageValue == p
      ensures itemsPerPageSet == old(itemsPerPageSet) && itemsPerPageValue == old(itemsPerPageValue)
    {
      pageValue, pageSet := p, true;
    }

    /** `builder.itemsPerPage(n)`. */
    method ItemsPerPage(n: int32)
      modifies this
      ensures itemsPerPageSet && itemsPerPageValue == n
      ensures pageSet == old(pageSet) && pageValue == old(pageValue)
    {
      itemsPerPageValue, itemsPerPageSet := n, true;
    }

    /** `builder.build()`. */
    function Build(): (r: Pager)
      reads this
      ensures r.page == (if pageSet then pageValue else DefaultPager().page)
      ensures r.itemsPerPage == (if itemsPerPageSet then itemsPerPageValue else DefaultPager().itemsPerPage)
    {
      Pager(if pageSet then pageValue else DEFAULT_PAGE,
            if itemsPerPageSet then itemsPerPageValue else DEFAULT_ITEMS_PER_PAGE)
    }
  }

  /** Setting only the page index leaves the page size at its default. */
  method BuildWithPageOnly(p: int32) returns (r: Pager)
    ensures r.page == p && r.itemsPerPage == DefaultPager().itemsPerPage
  {
    var b := new PagerBuilder();
    b.Page(p);
    r := b.Build();
  }

  /** Setting only the page size leaves the page index at its default. */
  method BuildWithItemsPerPageOnly(n: int32) returns (r: Pager)
    ensures r.page == DefaultPager().page && r.itemsPerPage == n
  {
    var b := new PagerBuilder();
    b.ItemsPerPage(n);
    r := b.Build();
  }

  /** Setting both fields gives the constructor's value. */
  method BuildWithBoth(p: int32, n: int32) returns (r: Pager)
    ensures r == Pager(p, n)
  {
    var b := new PagerBuilder();
    b.ItemsPerPage(n);
    b.Page(p);
    r := b.Build();
  }

  /** A builder with nothing set builds the default pager. */
  method BuildWithNothing() returns (r: Pager)
    ensures r == DefaultPager()
  {
    var b := new PagerBuilder();
    r := b.Build();
  }
}
