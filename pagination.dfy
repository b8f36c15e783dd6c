/**
 * The pagination controller: the module-level `page` and `matches`, the list of
 * rendered previews, the "Show more" button's disabled flag and remaining-count
 * label, and the "no results" message. The load sequence, the search form
 * submit and the "Show more" click are its operations.
 */
module Pagination {
  import opened Catalogue

  function Min(a: nat, b: nat): nat {
    if a < b then a else b
  }

  /** `s.slice(lo, hi)` for non-negative bounds: both are clamped to `|s|`, and an
      empty range gives the empty list. */
  function Slice<T>(s: seq<T>, lo: nat, hi: nat): (r: seq<T>)
    ensures lo < hi && lo < |s| ==> |r| == Min(hi, |s|) - lo
    ensures hi <= lo || |s| <= lo ==> r == []
    ensures forall k :: 0 <= k < |r| ==> lo + k < |s| && r[k] == s[lo + k]
  {
    if lo < Min(hi, |s|) then s[lo..Min(hi, |s|)] else []
  }

  /** Appending the next page's slice to the first `lo` items gives the first `hi` items. */
  lemma SliceExtendsPrefix<T>(s: seq<T>, lo: nat, hi: nat)
    requires lo <= hi
    ensures s[..Min(lo, |s|)] + Slice(s, lo, hi) == s[..Min(hi, |s|)]
  {
  }

  /** The remaining-count label: how many matches lie beyond the first `revealed`,
      never negative. */
  function Remaining(total: nat, revealed: nat): (r: nat)
    ensures r + revealed >= total
    ensures r > 0 ==> r + revealed == total
  {
    if total - revealed > 0 then total - revealed else 0
  }

  class Controller {
    /** The catalogue and BOOKS_PER_PAGE, both supplied by the data module. */
    const books: seq<Book>
    const perPage: nat

    /** The current page number. */
    var page: nat
    /** The books matching the last search (the whole catalogue before any search). */
    var matches: seq<Book>
    /** The books whose previews are in the list, in list order. */
    var rendered: seq<Book>
    /** The "Show more" button's disabled flag. */
    var disabled: bool
    /** The number shown in the "Show more" button's label. */
    var remainingLabel: nat
    /** Whether the "no results" message is shown. */
    var noResults: bool
    /** The query `matches` was filtered with. */
    ghost var query: Query

    /** Rendering invariant: the list shows exactly the first `page` pages of the matches. */
    ghost predicate Paged()
      reads this
    {
      && perPage > 0
      && page >= 1
      && rendered == matches[..Min(page * perPage, |matches|)]
      && (noResults ==> matches == [])
    }

    /** The controller invariant: paged, and the matches are the last query's search result. */
    ghost predicate Valid()
      reads this
    {
      Paged() && matches == Filter(books, query)
    }

    /** The button is disabled exactly when nothing is left to reveal. */
    ghost predicate ButtonAgrees()
      reads this
    {
      disabled <==> |matches| <= page * perPage
    }

    /** The load sequence: `page = 1`, `matches = books`, the first page rendered,
        `updateShowMoreButton()`, then one "Show more" click. */
    constructor (books: seq<Book>, perPage: nat)
      requires perPage > 0
      ensures this.books == books && this.perPage == perPage
      ensures Valid() && ButtonAgrees()
      ensures page == 2 && matches == books && !noResults
      ensures rendered == books[..Min(2 * perPage, |books|)]
      ensures disabled <==> |books| <= 2 * perPage
      ensures remainingLabel == Remaining(|books|, perPage)
    {
      this.books := books;
      this.perPage := perPage;
      page := 1;
      matches := books;
      rendered := [];
      disabled := false;
      remainingLabel := 0;
      noResults := false;
      query := Query("", Any, Any);
      BlankQueryKeepsAll(books, Query("", Any, Any));
      new;
      assert page * perPage == perPage;
      DisplayFirstPage();
      UpdateShowMoreButton();
      ShowMore();
      assert page * perPage == 2 * perPage;
    }

    /** `displayBooksPerPage`: renders the first page of `matches` at page 1. */
    method DisplayFirstPage()
      requires perPage > 0 && page == 1 && rendered == []
      modifies this`rendered
      ensures rendered == matches[..Min(page * perPage, |matches|)]
    {
      AppendPreviews(0, perPage);
      SliceExtendsPrefix(matches, 0, perPage);
      assert page * perPage == perPage;
    }

    /** Appends a preview for each book of `matches.slice(lo, hi)`, in order. */
    method AppendPreviews(lo: nat, hi: nat)
      modifies this`rendered
      ensures rendered == old(rendered) + Slice(matches, lo, hi)
    {
      var items := Slice(matches, lo, hi);
      var k := 0;
      while k < |items|
        invariant 0 <= k <= |items|
        invariant rendered == old(rendered) + items[..k]
      {
        rendered := rendered + [items[k]];
        k := k + 1;
      }
      assert items[..k] == items;
    }

    /** `updateShowMoreButton`: the label shows the remaining count, but the flag is set
        to "disabled" when books REMAIN, the opposite of the search and "Show more" handlers. */
    method UpdateShowMoreButton()
      modifies this`disabled, this`remainingLabel
      ensures disabled <==> |matches| > page * perPage
      ensures remainingLabel == Remaining(|matches|, page * perPage)
    {
      var remainingBooks := |matches| - page * perPage;
      disabled := remainingBooks > 0;
      remainingLabel := Remaining(|matches|, page * perPage);
    }

    /** Search form submit: filter the catalogue, then show the first page of the result. */
    method Search(q: Query)
      requires Valid()
      modifies this`page, this`matches, this`rendered, this`disabled, this`remainingLabel,
        this`noResults, this`query
      ensures Valid() && ButtonAgrees()
      ensures query == q && matches == Filter(books, q) && page == 1
      ensures noResults <==> matches == []
      ensures rendered == matches[..Min(perPage, |matches|)]
      ensures disabled <==> |matches| <= perPage
      ensures remainingLabel == Remaining(|matches|, perPage)
    {
      var result := Filter(books, q);
      query := q;
      ShowResults(result);
    }

    /** The rest of the search handler: reset to page 1, replace the list with the first
        page of `result` and refresh the message, the button and its label. */
    method ShowResults(result: seq<Book>)
      requires perPage > 0
      modifies this`page, this`matches, this`rendered, this`disabled, this`remainingLabel,
        this`noResults
      ensures matches == result && page == 1
      ensures noResults <==> matches == []
      ensures rendered == matches[..Min(perPage, |matches|)]
      ensures disabled <==> |matches| <= perPage
      ensures remainingLabel == Remaining(|matches|, perPage)
    {
      page := 1;
      matches := result;
      noResults := |result| < 1;
      rendered := [];
      AppendPreviews(0, perPage);
      SliceExtendsPrefix(matches, 0, perPage);
      assert page * perPage == perPage;
      disabled := |matches| - page * perPage < 1;
      remainingLabel := Remaining(|matches|, page * perPage);
    }

    /** "Show more" click: append the next page of matches and advance the page. There is
        no guard when nothing is left: the slice is then empty but the page still advances.
        The remaining-count label is not refreshed. */
    method ShowMore()
      requires Paged()
      modifies this`rendered, this`page, this`disabled
      ensures Paged() && ButtonAgrees()
      ensures old(Valid()) ==> Valid()
      ensures matches == old(matches) && query == old(query) && remainingLabel == old(remainingLabel)
      ensures page == old(page) + 1
      ensures rendered == old(rendered) + Slice(matches, old(page) * perPage, page * perPage)
      ensures disabled <==> |matches| <= page * perPage
    {
      var startIndex := page * perPage;
      var endIndex := (page + 1) * perPage;
      var remainingBooks := |matches| - endIndex;
      AppendPreviews(startIndex, endIndex);
      SliceExtendsPrefix(matches, startIndex, endIndex);
      page := page + 1;
      assert page * perPage == endIndex;
      disabled := remainingBooks <= 0;
    }

    /** The listener on the "Show more" button: the browser delivers a click only to an
        enabled button, so a click on the disabled button changes nothing. */
    method Click()
      requires Paged() && ButtonAgrees()
      modifies this`rendered, this`page, this`disabled
      ensures Paged() && ButtonAgrees()
      ensures old(Valid()) ==> Valid()
      ensures matches == old(matches) && query == old(query) && remainingLabel == old(remainingLabel)
      ensures old(disabled) ==> page == old(page) && rendered == old(rendered) && disabled
      ensures !old(disabled) ==> page == old(page) + 1
      ensures !old(disabled) ==> rendered == old(rendered) + Slice(matches, old(page) * perPage, page * perPage)
    {
      if !disabled {
        ShowMore();
      }
    }

    /** Clicking a preview: the book is looked up by id in the whole catalogue, not in
        the matches; nothing changes when no book carries the id. */
    method SelectPreview(id: string) returns (active: Option<Book>)
      ensures active == FindById(books, id)
    {
      active := FindById(books, id);
    }
  }

  /** In every state the operations leave behind, the list never shows more than `page`
      pages nor more than the matches, the shown and the remaining books together account
      for all matches, and the button is disabled exactly when every match is shown. */
  lemma ShownAndRemaining(c: Controller)
    requires c.Paged() && c.ButtonAgrees()
    ensures |c.rendered| <= c.page * c.perPage && |c.rendered| <= |c.matches|
    ensures |c.rendered| + Remaining(|c.matches|, c.page * c.perPage) == |c.matches|
    ensures c.disabled <==> c.rendered == c.matches
  {
  }
}
