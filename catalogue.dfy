/**
 * The catalogue and its search: the book record, the query built from the
 * search form, the three tests a book must pass to be kept, the stable filter
 * over the catalogue (`books.filter(...)` in `handleSearchFormSubmit`) and the
 * lookup of a clicked preview's book by id (`books.find(...)`).
 */
module Catalogue {
  import opened Text

  datatype Option<T> = None | Some(value: T)

  /** The fields of a catalogue entry that the search and the lookup read. */
  datatype Book = Book(id: string, title: string, author: string, genres: seq<string>)

  /** The search form's values; `author` and `genre` are an id or "any". */
  datatype Query = Query(title: string, author: string, genre: string)

  /** The select value that disables the author or genre test. */
  const Any: string := "any"

  /** A title query that trims to "" keeps every book; otherwise the lower-cased
      title must contain the lower-cased, untrimmed query. */
  predicate TitleMatch(b: Book, q: Query) {
    Trim(q.title) == [] || Contains(ToLower(b.title), ToLower(q.title))
  }

  predicate AuthorMatch(b: Book, q: Query) {
    q.author == Any || b.author == q.author
  }

  predicate GenreMatch(b: Book, q: Query) {
    q.genre == Any || q.genre in b.genres
  }

  /** The filter callback's verdict: all three tests pass. */
  predicate Keep(b: Book, q: Query) {
    TitleMatch(b, q) && AuthorMatch(b, q) && GenreMatch(b, q)
  }

  /** The `genreMatch` flag loop: start from `genre === "any"`, stop scanning
      once the flag is set, set it when a genre of the book equals the query's. */
  method ScanGenres(b: Book, q: Query) returns (genreMatch: bool)
    ensures genreMatch <==> GenreMatch(b, q)
  {
    genreMatch := q.genre == Any;
    var i := 0;
    while i < |b.genres|
      invariant 0 <= i <= |b.genres|
      invariant genreMatch <==> q.genre == Any || q.genre in b.genres[..i]
    {
      if genreMatch {
        break;
      }
      if b.genres[i] == q.genre {
        genreMatch := true;
      }
      i := i + 1;
    }
    assert b.genres[..|b.genres|] == b.genres;
  }

  /** `books.filter(keep)`: the kept books, in catalogue order. */
  function Filter(books: seq<Book>, q: Query): (r: seq<Book>)
    ensures |r| <= |books|
  {
    if books == [] then []
    else (if Keep(books[0], q) then [books[0]] else []) + Filter(books[1..], q)
  }

  /** `a` is obtained from `b` by deleting elements, without reordering. */
  ghost predicate IsSubsequence<T>(a: seq<T>, b: seq<T>)
    decreases |b|
  {
    a == [] || (b != [] && ((a[0] == b[0] && IsSubsequence(a[1..], b[1..])) || IsSubsequence(a, b[1..])))
  }

  /** The search result keeps the catalogue's order. */
  lemma {:induction false} FilterIsSubsequence(books: seq<Book>, q: Query)
    ensures IsSubsequence(Filter(books, q), books)
  {
    if books != [] {
      var rest := Filter(books[1..], q);
      FilterIsSubsequence(books[1..], q);
      if Keep(books[0], q) {
        var r := [books[0]] + rest;
        assert Filter(books, q) == r;
        assert r[0] == books[0] && r[1..] == rest;
      } else {
        assert Filter(books, q) == rest;
      }
    }
  }

  /** A book is in the result exactly when it is in the catalogue and passes all three tests. */
  lemma {:induction false} FilterMembership(books: seq<Book>, q: Query, b: Book)
    ensures b in Filter(books, q) <==> b in books && Keep(b, q)
  {
    if books != [] {
      FilterMembership(books[1..], q, b);
      assert books == [books[0]] + books[1..];
    }
  }

  /** The filter works book by book: filtering a concatenation concatenates the results. */
  lemma {:induction false} FilterConcat(a: seq<Book>, c: seq<Book>, q: Query)
    ensures Filter(a + c, q) == Filter(a, q) + Filter(c, q)
  {
    if a == [] {
      assert a + c == c;
    } else {
      assert (a + c)[1..] == a[1..] + c;
      FilterConcat(a[1..], c, q);
    }
  }

  /** When every book passes, the result is the whole catalogue in its order. */
  lemma {:induction false} FilterKeepsAll(books: seq<Book>, q: Query)
    requires forall i :: 0 <= i < |books| ==> Keep(books[i], q)
    ensures Filter(books, q) == books
  {
    if books != [] {
      FilterKeepsAll(books[1..], q);
    }
  }

  /** A blank or white-space-only title with author and genre "any" returns the whole catalogue. */
  lemma BlankQueryKeepsAll(books: seq<Book>, q: Query)
    requires forall i :: 0 <= i < |q.title| ==> IsSpace(q.title[i])
    requires q.author == Any && q.genre == Any
    ensures Filter(books, q) == books
  {
    TrimBlankIff(q.title);
    FilterKeepsAll(books, q);
  }

  /** Filtering a search result again with the same query changes nothing. */
  lemma {:induction false} FilterIdempotent(books: seq<Book>, q: Query)
    ensures Filter(Filter(books, q), q) == Filter(books, q)
  {
    if books != [] {
      var rest := Filter(books[1..], q);
      FilterIdempotent(books[1..], q);
      if Keep(books[0], q) {
        var r := [books[0]] + rest;
        assert Filter(books, q) == r;
        assert r[0] == books[0] && r[1..] == rest;
        assert Filter(r, q) == [books[0]] + Filter(rest, q);
      } else {
        assert Filter(books, q) == rest;
      }
    }
  }

  /** The title test ignores ASCII case on both sides: two titles and two queries that
      differ only in the case of their letters get the same verdict. */
  lemma TitleMatchIgnoresCase(b1: Book, b2: Book, q1: Query, q2: Query)
    requires SameUpToCase(b1.title, b2.title)
    requires SameUpToCase(q1.title, q2.title)
    ensures TitleMatch(b1, q1) <==> TitleMatch(b2, q2)
  {
    ToLowerSameIff(b1.title, b2.title);
    ToLowerSameIff(q1.title, q2.title);
    LowerKeepsSpace(q1.title);
    LowerKeepsSpace(q2.title);
    TrimBlankIff(q1.title);
    TrimBlankIff(q2.title);
    assert |q1.title| == |q2.title|;
    assert forall i :: 0 <= i < |q1.title| ==> ToLower(q1.title)[i] == ToLower(q2.title)[i];
  }

  /** A title search is a case-insensitive substring search: "dune" finds "Dune Messiah"
      and not "The Great Gatsby". */
  lemma TitleSearchExample(dune: Book, gatsby: Book)
    requires dune.title == "Dune Messiah" && gatsby.title == "The Great Gatsby"
    ensures Filter([dune, gatsby], Query("dune", Any, Any)) == [dune]
  {
    var q := Query("dune", Any, Any);
    var d, g := ToLower(dune.title), ToLower(gatsby.title);
    assert ToLower(q.title) == "dune";
    assert d[..4] == "dune";
    assert Contains(d, "dune");
    ContainsNeedsFirstChar(g, "dune");
    TrimBlankIff(q.title);
    assert !IsSpace(q.title[0]);
    assert Keep(dune, q) && !Keep(gatsby, q);
    assert Filter([gatsby], q) == Filter([], q);
    assert [dune, gatsby][1..] == [gatsby];
  }

  /** The query is trimmed only for the blank test, not for the substring test: a
      leading space makes "Dune" miss although " dune" trims to "dune". */
  lemma UntrimmedQueryMisses(dune: Book)
    requires dune.title == "Dune"
    ensures Trim(" dune") != []
    ensures Filter([dune], Query(" dune", Any, Any)) == []
  {
    var q := Query(" dune", Any, Any);
    TrimBlankIff(" dune");
    assert !IsSpace(" dune"[1]);
    assert |ToLower(dune.title)| == 4 && |ToLower(q.title)| == 5;
    ContainsTooLong(ToLower(dune.title), ToLower(q.title));
    assert !TitleMatch(dune, q);
    assert !Keep(dune, q);
    assert Filter([dune], q) == Filter([], q);
  }

  /** `books.find(book => book.id === id)`: the first catalogue book with that id, if any. */
  function FindById(books: seq<Book>, id: string): (r: Option<Book>)
    ensures r.Some? ==> r.value in books && r.value.id == id
    ensures r.None? ==> forall i :: 0 <= i < |books| ==> books[i].id != id
  {
    if books == [] then None
    else if books[0].id == id then Some(books[0])
    else FindById(books[1..], id)
  }

  /** The lookup returns the FIRST book carrying the id, even if later books share it. */
  lemma {:induction false} FindByIdFirst(books: seq<Book>, id: string, i: nat)
    requires i < |books| && books[i].id == id
    requires forall j :: 0 <= j < i ==> books[j].id != id
    ensures FindById(books, id) == Some(books[i])
  {
    if i > 0 {
      FindByIdFirst(books[1..], id, i - 1);
    }
  }
}
