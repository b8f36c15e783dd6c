/**
 * Client runs of the controller, proved from the operations' contracts alone.
 * Button clicks go through `Controller.Click`, so a disabled button ignores them.
 */
module Scenarios {
  import opened Catalogue
  import opened Pagination

  /** Loading thirty books at twelve per page reveals two pages: 24 books, an enabled
      button and the page-1 label 18. */
  method LoadThirtyBooks(books: seq<Book>) returns (c: Controller)
    requires |books| == 30
    ensures fresh(c) && c.Valid() && c.ButtonAgrees()
    ensures c.books == books && c.matches == books && c.perPage == 12
    ensures c.page == 2 && c.rendered == books[..24] && !c.disabled
    ensures c.remainingLabel == 18
  {
    c := new Controller(books, 12);
  }

  /** After loading thirty books, one click reveals the last six and disables the
      button, while the label still says 18 because the click does not refresh it;
      a further click reaches a disabled button and changes nothing. */
  method ThirtyBooks(books: seq<Book>) returns (c: Controller)
    requires |books| == 30
    ensures c.page == 3 && c.rendered == books && c.disabled
    ensures c.remainingLabel == 18
  {
    c := LoadThirtyBooks(books);
    c.Click();
    assert c.page == 3 && c.rendered == books[..30] && c.disabled;
    c.Click();
  }

  /** A catalogue that fits on one page, the empty one included: the unguarded "Show more"
      call at load appends nothing yet still advances the page to 2, no "no results" message
      is shown even for an empty catalogue, and a later click is ignored. */
  method SmallCatalogue(books: seq<Book>) returns (c: Controller)
    requires |books| <= 12
    ensures c.page == 2 && c.rendered == books && c.disabled && c.remainingLabel == 0
    ensures !c.noResults
  {
    c := new Controller(books, 12);
    assert c.rendered == books[..|books|];
    c.Click();
  }

  /** A search with no match shows the message and an empty, disabled list; repeating
      it shows the same empty page, and a click on the disabled button changes nothing. */
  method EmptySearch(c: Controller, q: Query)
    requires c.Valid() && Filter(c.books, q) == []
    modifies c
    ensures c.noResults && c.rendered == [] && c.disabled && c.page == 1
  {
    c.Search(q);
    assert c.noResults && c.rendered == [] && c.disabled;
    c.Search(q);
    c.Click();
  }

  /** A search with matches, a click, then the same search again: the list is replaced
      by the first page of the result, not extended, so no preview is shown twice. */
  method RepeatSearch(c: Controller, q: Query) returns (first: seq<Book>)
    requires c.Valid() && Filter(c.books, q) != []
    modifies c
    ensures first != [] && first == Filter(c.books, q)[..Min(c.perPage, |Filter(c.books, q)|)]
    ensures c.rendered == first && c.page == 1 && !c.noResults
  {
    c.Search(q);
    first := c.rendered;
    c.Click();
    c.Search(q);
  }
}
