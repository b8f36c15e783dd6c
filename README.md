# Book Connect catalogue search and pagination, in Dafny

Book Connect is a browser page that shows a catalogue of books as a grid of
previews. It reveals the grid one page of `BOOKS_PER_PAGE` books at a time
through a "Show more" button. A search form filters the catalogue by title,
author and genre, and clicking a preview opens the book's details. This
project models the logic under those DOM event handlers in
`book-connect-main/scripts.js`:

- `text.dfy`, module `Text`: the three JavaScript string operations the search
  uses. These are `trim` (the full WhiteSpace and LineTerminator set),
  `toLowerCase` (ASCII letters only) and `includes`.
- `catalogue.dfy`, module `Catalogue`: the `Book` record and the search `Query`.
  It holds the three tests a book must pass: the title test, the author test and
  the genre test. It also holds the `genreMatch` flag-and-`break` loop
  (`ScanGenres`), the stable filter `books.filter(...)` (`Filter`) and the id
  lookup `books.find(...)` (`FindById`).
- `pagination.dfy`, module `Pagination`: JavaScript's `slice` with clamped
  bounds, the remaining-count label, and the class `Controller`. Its fields are
  the module-level `page` and `matches`, the list of rendered previews
  (`rendered`, which stands for the children of `[data-list-items]`), the button's
  `disabled` flag, the label's number and the "no results" flag. The constructor
  is the load sequence. `Search` is the search form submit and `ShowMore` is the
  "Show more" handler. `Click` is the button's listener, which the browser runs only
  while the button is enabled. `SelectPreview` is the preview click.
- `scenarios.dfy`, module `Scenarios`: client runs proved from the contracts
  alone. They cover thirty books with twelve per page, a catalogue that fits on one
  page, a search with no result, and a search repeated after a click.

`Controller.Paged()` is the rendering invariant. It says `page >= 1` and that
the list shows exactly `matches[..min(page * BOOKS_PER_PAGE, |matches|)]`.
`Controller.Valid()` adds `matches == Filter(books, query)` for the last query.
`Controller.ButtonAgrees()` says the button is disabled exactly when nothing is
left to reveal. Load, search and "Show more" each establish both.

Behaviour that follows the code, not the intent:

- `updateShowMoreButton` (scripts.js:144) sets `disabled` when books remain. The
  search handler (scripts.js:347) and the "Show more" handler (scripts.js:414) do
  the opposite. At load the inverted value is overwritten by the "Show more" call
  at scripts.js:422, so it is never visible after load.
- Loading calls the "Show more" handler once, so after load `page == 2` and two
  pages are shown.
- The "Show more" handler never refreshes the remaining-count label. After load
  it still shows the count for page 1, and after later clicks it shows the count
  from the last search or from load (see `Scenarios.ThirtyBooks`). The label is
  modelled as written.
- "Show more" has no guard of its own. With nothing left, the slice is empty but
  `page` still advances. A click cannot reach it then, because the button is
  disabled, but the direct call at load (scripts.js:422) does. A catalogue that
  fits on one page therefore ends loading at `page == 2` (`Scenarios.SmallCatalogue`).
- The title query is trimmed only for the blank test. The substring test uses
  the untrimmed query, so " dune" does not find "Dune"
  (`Catalogue.UntrimmedQueryMisses`).
- The preview lookup searches the whole catalogue, not `matches`, and returns the
  first book with the id.

## Model

| member | source | states |
|---|---|---|
| `Text.TrimStart` | book-connect-main/scripts.js:294 | the leading half of `trim`: drops white space from the front; its meaning is stated by `TrimStartCuts` |
| `Text.TrimEnd` | book-connect-main/scripts.js:294 | the trailing half of `trim`: drops white space from the back; its meaning is stated by `TrimEndCuts` |
| `Text.Trim` | book-connect-main/scripts.js:294 | `filters.title.trim()`: both halves in turn; its meaning is stated by `TrimEnds` and `TrimBlankIff` |
| `Text.TrimStartCuts` | book-connect-main/scripts.js:294 | the leading-trim keeps a suffix that does not start with white space, and everything it drops is white space |
| `Text.TrimEndCuts` | book-connect-main/scripts.js:294 | the trailing-trim keeps a prefix that does not end with white space, and everything it drops is white space |
| `Text.TrimEnds` | book-connect-main/scripts.js:294 | `trim()` is no longer than its input, and a non-empty result starts and ends with a non-space character |
| `Text.TrimBlankIff` | book-connect-main/scripts.js:294 | `title.trim() === ""` holds exactly when the query is empty or all white space |
| `Text.LowerChar` | book-connect-main/scripts.js:296 | the per-character ASCII case folding under `toLowerCase`; its meaning is stated by `ToLowerSameIff` |
| `Text.ToLower` | book-connect-main/scripts.js:296 | lower-casing keeps the length and leaves no ASCII capital |
| `Text.ToLowerSameIff` | book-connect-main/scripts.js:296 | two strings lower-case to the same string exactly when they differ at most in the ASCII case of their letters |
| `Text.Contains` | book-connect-main/scripts.js:296 | `includes`, trying each start position from the left; its meaning is stated by `ContainsIff` |
| `Text.ContainsIff` | book-connect-main/scripts.js:296 | `includes` is true exactly when the needle occurs at some position, and the empty needle always occurs |
| `Catalogue.TitleMatch` | book-connect-main/scripts.js:294-296 | the title test: a query that trims to "" passes, otherwise the lower-cased title must include the lower-cased, untrimmed query; stated by `TitleMatchIgnoresCase`, `TitleSearchExample` and `UntrimmedQueryMisses` |
| `Catalogue.AuthorMatch` | book-connect-main/scripts.js:297 | the author test: "any" or the book's author id |
| `Catalogue.GenreMatch` | book-connect-main/scripts.js:283-290 | the genre test: "any" or one of the book's genres; `ScanGenres` is proved to compute it |
| `Catalogue.Keep` | book-connect-main/scripts.js:292-299 | the filter callback's verdict: all three tests pass; `FilterMembership` ties it to the result |
| `Catalogue.Filter` | book-connect-main/scripts.js:282-300 | `books.filter(...)`: never longer than the catalogue; membership, order and book-by-book decision are stated by the lemmas below |
| `Catalogue.ScanGenres` | book-connect-main/scripts.js:283-290 | the flag loop with early `break` yields true exactly when the genre is "any" or is among the book's genres |
| `Catalogue.FilterMembership` | book-connect-main/scripts.js:282-300 | a book is in the result iff it is in the catalogue and passes the title, author and genre tests |
| `Catalogue.FilterIsSubsequence` | book-connect-main/scripts.js:282-300 | the result is an order-preserving subsequence of the catalogue |
| `Catalogue.FilterConcat` | book-connect-main/scripts.js:282-300 | the filter decides book by book: filtering `a + c` gives the result for `a` followed by the result for `c` |
| `Catalogue.FilterKeepsAll` | book-connect-main/scripts.js:282-300 | when every book passes, the result is the whole catalogue in its order |
| `Catalogue.BlankQueryKeepsAll` | book-connect-main/scripts.js:283-297 | a blank or white-space-only title with author "any" and genre "any" returns the whole catalogue in its order |
| `Catalogue.FilterIdempotent` | book-connect-main/scripts.js:282-300 | filtering a search result again with the same query changes nothing |
| `Catalogue.TitleMatchIgnoresCase` | book-connect-main/scripts.js:294-296 | titles and queries that differ only in the ASCII case of their letters get the same title verdict |
| `Catalogue.TitleSearchExample` | book-connect-main/scripts.js:294-296 | "dune" keeps "Dune Messiah" and drops "The Great Gatsby" |
| `Catalogue.UntrimmedQueryMisses` | book-connect-main/scripts.js:294-296 | " dune" is not blank, yet it does not find "Dune", because the substring test uses the untrimmed query |
| `Catalogue.FindById` | book-connect-main/scripts.js:438 | a found book is in the catalogue and has the id; nothing is found only when no catalogue book has the id |
| `Catalogue.FindByIdFirst` | book-connect-main/scripts.js:438 | the lookup returns the first catalogue book with the id |
| `Pagination.Slice` | book-connect-main/scripts.js:385-388 | `slice(lo, hi)` holds `min(hi, n) - lo` elements starting at `lo`, each equal to the source element at that offset, and is empty when `lo >= n` or `hi <= lo` |
| `Pagination.SliceExtendsPrefix` | book-connect-main/scripts.js:381-388 | the first `lo` items followed by `slice(lo, hi)` are the first `hi` items |
| `Pagination.Remaining` | book-connect-main/scripts.js:148-150 | the label is never negative; it is 0 when everything is revealed and otherwise the count of unrevealed matches |
| `Pagination.Controller.constructor` | book-connect-main/scripts.js:13-53 | the load sequence, with lines 225 and 422 run after line 53: `matches` is the catalogue, `page == 2`, the first `min(2*BPP, n)` books are shown, the button is disabled iff `n <= 2*BPP`, and the label keeps the page-1 count from line 225; `Valid` and `ButtonAgrees` hold |
| `Pagination.Controller.DisplayFirstPage` | book-connect-main/scripts.js:25-51 | at page 1 with an empty list, the list becomes exactly the first `min(BPP, n)` matches |
| `Pagination.Controller.AppendPreviews` | book-connect-main/scripts.js:385-410 | one preview is appended per book of `matches.slice(lo, hi)`, in order, after the existing ones (the same loop renders at lines 28-50 and 321-343) |
| `Pagination.Controller.UpdateShowMoreButton` | book-connect-main/scripts.js:138-152 | the label is the remaining count, and the flag is set to disabled when books remain (the inverted test) |
| `Pagination.Controller.Search` | book-connect-main/scripts.js:282-304 | `matches` becomes the filter result and `query` the query, then `ShowResults`; `Valid` and `ButtonAgrees` hold afterwards |
| `Pagination.Controller.ShowResults` | book-connect-main/scripts.js:303-356 | `page == 1`; the old list is discarded and exactly the first `min(BPP, n)` matches are shown; "no results" iff no match; disabled iff `n - BPP < 1`; the label is `max(0, n - BPP)` |
| `Pagination.Controller.ShowMore` | book-connect-main/scripts.js:379-415 | the shown items are kept and `matches[page*BPP .. min((page+1)*BPP, n)]` is appended; `page` grows by exactly 1; disabled iff `n - newPage*BPP <= 0`; `matches` and the label are unchanged; `Paged` and `Valid` are preserved |
| `Pagination.Controller.Click` | book-connect-main/scripts.js:418-420 | a click on the disabled button changes nothing; on the enabled button it is exactly `ShowMore`; `Paged`, `ButtonAgrees` and `Valid` are preserved |
| `Pagination.Controller.SelectPreview` | book-connect-main/scripts.js:434-440 | the clicked id is looked up in the full catalogue, not in `matches`; nothing changes |
| `Pagination.ShownAndRemaining` | book-connect-main/scripts.js:345-355 | in every reachable state the list shows at most `page*BPP` and at most `n` items; shown plus `Remaining(n, page*BPP)` equals `n` (a count, not the label, which a click leaves stale); the button is disabled iff every match is shown |
| `Scenarios.LoadThirtyBooks` | book-connect-main/scripts.js:13-53 | with 30 books and 12 per page, load ends at page 2 with 24 books shown, the button enabled and the label 18 |
| `Scenarios.ThirtyBooks` | book-connect-main/scripts.js:379-422 | after that load, one click shows all 30 and disables the button while the label stays 18; a second click reaches the disabled button and the run stays at page 3 |
| `Scenarios.SmallCatalogue` | book-connect-main/scripts.js:379-422 | a catalogue of at most 12 books, the empty one included: the load-time call appends nothing but reaches page 2, the whole catalogue is shown, the button is disabled, the label is 0, no "no results" message is shown, and a click is ignored |
| `Scenarios.EmptySearch` | book-connect-main/scripts.js:303-347 | a search with no match sets "no results" and shows an empty, disabled list; repeating it and then clicking leaves the list empty at page 1 |
| `Scenarios.RepeatSearch` | book-connect-main/scripts.js:303-347 | a search with matches, a click and the same search again end with exactly the first page of the result, as after the first search, at page 1 |

## Left out

- DOM construction and preview templating, including `createElement`, `innerHTML`,
  document fragments and `querySelector`. The list is the sequence of books whose
  previews it holds.
- Populating the author and genre `<option>` lists (scripts.js:61-105). This is
  output only.
- Theme handling from the system preference and the settings form
  (scripts.js:111-132, 233-259), because it only sets CSS properties.
- Opening and closing the overlays, input focus and `window.scrollTo`.
- The detail overlay's contents (image, subtitle, description). The publication
  year comes from `Date` parsing and time zones. `Book` therefore keeps only
  `id`, `title`, `author` and `genres`.
- The `event.path` / `composedPath()` walk at scripts.js:431-437.
  `SelectPreview` takes the already-extracted `data-preview` id.
- The empty click listener (scripts.js:156-158) and the label text at
  scripts.js:142, which scripts.js:146 overwrites at once.
- `data.js` is not part of this model. The catalogue and `BOOKS_PER_PAGE` are
  constructor parameters, with `BOOKS_PER_PAGE > 0` assumed.
- Text.ToLower: folds only the ASCII letters A-Z. The Unicode case mappings of
  `toLowerCase` are not modelled.
- Catalogue.Filter: its own contract states only the length bound. Membership, order and
  the other properties are in the lemmas about it.
- Forms without a title, author or genre field, where a field would be
  `undefined`, are not modelled. A `Query` always carries three strings.
- The browser's refusal to deliver clicks to a disabled button is modelled as
  the guard in `Controller.Click`. The DOM event dispatch itself is not modelled.
