/**
 * The Search page: a multi-term query over all stored books, and the same
 * bookmark and progress handlers as the Library page over `allBooks`.
 *
 * Unlike the grid filter, a blank query gives no results, every
 * space-separated term must match, and the language is searched too.
 */
module SearchPage {
  import opened Wrappers
  import opened Books
  import opened Seqs
  import opened Text
  import opened Catalog
  import opened Storage
  import BookGrid

  /** `[book.title, book.author, ...tags, ...categories, book.language]`. */
  function SearchFields(b: Book): (r: seq<string>)
    ensures |r| == |b.tags| + |b.categories| + 3
    ensures r[0] == b.title && r[1] == b.author && r[|r| - 1] == b.language
    ensures r[2..2 + |b.tags|] == b.tags && r[2 + |b.tags|..|r| - 1] == b.categories
  {
    [b.title, b.author] + b.tags + b.categories + [b.language]
  }

  /** `searchableText`: the fields joined with spaces, then lowercased. */
  function SearchableText(b: Book): string
  {
    Lower(Join(SearchFields(b)))
  }

  /** `query.toLowerCase().split(" ")`. */
  function QueryTerms(query: string): seq<string>
  {
    Split(Lower(query))
  }

  /** `searchTerms.every(term => searchableText.includes(term))`. */
  predicate MatchesAll(b: Book, terms: seq<string>)
  {
    forall k :: 0 <= k < |terms| ==> Contains(SearchableText(b), terms[k])
  }

  /** `filteredBooks` as the effect computes it from `query` and `allBooks`. */
  function SearchResults(allBooks: seq<Book>, query: string): (r: seq<Book>)
    ensures |r| <= |allBooks|
    ensures forall k :: 0 <= k < |r| ==> r[k] in allBooks
  {
    if Trim(query) == [] then []
    else Filter((b: Book) => MatchesAll(b, QueryTerms(query)), allBooks)
  }

  /** A blank query finds nothing, whatever the library holds. */
  lemma BlankQueryFindsNothing(allBooks: seq<Book>, query: string)
    requires Blank(query)
    ensures SearchResults(allBooks, query) == []
  {
    TrimEmptyIffBlank(query);
  }

  /**
   * Otherwise a book is found iff every term of the lowercased query occurs in
   * its searchable text; every occurrence of a matching book is found, in
   * the library's order.
   */
  lemma SearchResultsSpec(allBooks: seq<Book>, query: string)
    requires !Blank(query)
    ensures forall b :: b in SearchResults(allBooks, query) <==> b in allBooks && MatchesAll(b, QueryTerms(query))
    ensures IsSublist(SearchResults(allBooks, query), allBooks)
    ensures forall b :: multiset(SearchResults(allBooks, query))[b] == if MatchesAll(b, QueryTerms(query)) then multiset(allBooks)[b] else 0
  {
    TrimEmptyIffBlank(query);
    var p := (b: Book) => MatchesAll(b, QueryTerms(query));
    forall b: Book
      ensures b in SearchResults(allBooks, query) <==> b in allBooks && MatchesAll(b, QueryTerms(query))
      ensures multiset(SearchResults(allBooks, query))[b] == if MatchesAll(b, QueryTerms(query)) then multiset(allBooks)[b] else 0
    {
      FilterMembership(p, allBooks, b);
      FilterMultiplicity(p, allBooks, b);
    }
    FilterIsSublist(p, allBooks);
  }

  /**
   * A query term never holds a space, so it cannot straddle two fields: it
   * occurs in the searchable text iff it occurs in one lowercased field.
   */
  lemma TermMatchesOneField(b: Book, query: string, k: int)
    requires 0 <= k < |QueryTerms(query)|
    ensures Contains(SearchableText(b), QueryTerms(query)[k])
      <==> exists f :: 0 <= f < |SearchFields(b)| && Contains(Lower(SearchFields(b)[f]), QueryTerms(query)[k])
  {
    var fields := SearchFields(b);
    var term := QueryTerms(query)[k];
    var lowered := seq(|fields|, f requires 0 <= f < |fields| => Lower(fields[f]));
    SplitPiecesHaveNoSpace(Lower(query));
    LowerJoin(fields);
    ContainsJoin(lowered, term);
    if exists f :: 0 <= f < |fields| && Contains(Lower(fields[f]), term) {
      var f :| 0 <= f < |fields| && Contains(Lower(fields[f]), term);
      assert Contains(lowered[f], term);
    }
  }

  /** A doubled space in the query adds an empty term, which every book matches. */
  lemma DoubledSpaceChangesNothing(b: Book, x: string, y: string)
    ensures MatchesAll(b, QueryTerms(x + "  " + y)) <==> MatchesAll(b, QueryTerms(x + " " + y))
  {
    var lx, ly := Lower(x), Lower(y);
    LowerAppend(x + "  ", y);
    LowerAppend(x, "  ");
    LowerAppend(x + " ", y);
    LowerAppend(x, " ");
    assert Lower(x + "  " + y) == lx + " " + (" " + ly);
    assert Lower(x + " " + y) == lx + " " + ly;
    SplitAtSpace(lx, " " + ly);
    SplitAtSpace(lx, ly);
    assert (" " + ly)[1..] == ly;
    var single := Split(lx) + Split(ly);
    var double := Split(lx) + [""] + Split(ly);
    assert QueryTerms(x + "  " + y) == double;
    assert QueryTerms(x + " " + y) == single;
    ContainsEmpty(SearchableText(b));
    if MatchesAll(b, single) {
      forall k | 0 <= k < |double|
        ensures Contains(SearchableText(b), double[k])
      {
        if k < |Split(lx)| {
          assert double[k] == single[k];
        } else if k > |Split(lx)| {
          assert double[k] == single[k - 1];
        }
      }
    }
    if MatchesAll(b, double) {
      forall k | 0 <= k < |single|
        ensures Contains(SearchableText(b), single[k])
      {
        if k < |Split(lx)| {
          assert single[k] == double[k];
        } else {
          assert single[k] == double[k + 1];
        }
      }
    }
  }

  /**
   * What the page shows below the search box. The found books are counted
   * and handed to the library grid, which shows them with its own initial
   * state: an empty search term and the newest-added-first sort.
   */
  datatype SearchView = EnterTerms | NoBooksFound | Found(results: seq<Book>, grid: BookGrid.GridView)

  function View(allBooks: seq<Book>, query: string): (r: SearchView)
    ensures r.Found? ==> r.results != [] && forall k :: 0 <= k < |r.results| ==> r.results[k] in allBooks
  {
    if Trim(query) == [] then EnterTerms
    else
      var results := SearchResults(allBooks, query);
      if |results| == 0 then NoBooksFound else Found(results, BookGrid.Render(results, "", BookGrid.DefaultSort))
  }

  /**
   * The prompt shows exactly for a blank query, and an empty library finds
   * nothing. Found books are the search results, and the grid shows every one
   * of them, newest added first rather than in library order.
   */
  lemma ViewSpec(allBooks: seq<Book>, query: string)
    ensures View(allBooks, query).EnterTerms? <==> Blank(query)
    ensures View(allBooks, query).Found? ==>
      View(allBooks, query).results == SearchResults(allBooks, query) && |View(allBooks, query).results| > 0
    ensures View(allBooks, query).Found? ==>
      View(allBooks, query).grid.Cards?
      && multiset(View(allBooks, query).grid.shown) == multiset(View(allBooks, query).results)
      && forall i, j :: 0 <= i < j < |View(allBooks, query).grid.shown| ==>
        View(allBooks, query).grid.shown[i].addedDate >= View(allBooks, query).grid.shown[j].addedDate
    ensures allBooks == [] ==> !View(allBooks, query).Found?
  {
    TrimEmptyIffBlank(query);
    if View(allBooks, query).Found? {
      var results := SearchResults(allBooks, query);
      BookGrid.BlankTermKeepsAll(results, "");
      BookGrid.RenderSpec(results, "", BookGrid.DefaultSort);
      BookGrid.SortedBooksSpec(results, "", BookGrid.DefaultSort);
    }
  }

  /** Neither the toggle nor a progress update changes which books a query finds: the results change with the list. */
  lemma MutatorsCommuteWithSearch(allBooks: seq<Book>, query: string, bookId: string, page: int, now: int)
    ensures SearchResults(ToggleBookmark(allBooks, bookId), query) == ToggleBookmark(SearchResults(allBooks, query), bookId)
    ensures SearchResults(SetProgress(allBooks, bookId, page, now), query)
      == SetProgress(SearchResults(allBooks, query), bookId, page, now)
  {
    if Trim(query) != [] {
      var p := (b: Book) => MatchesAll(b, QueryTerms(query));
      forall b: Book
        ensures p(Toggled(b)) == p(b) && p(WithProgress(b, page, now)) == p(b)
      {
        assert SearchFields(Toggled(b)) == SearchFields(b);
        assert SearchFields(WithProgress(b, page, now)) == SearchFields(b);
      }
      FilterMapByIdCommute(p, allBooks, bookId, Toggled);
      FilterMapByIdCommute(p, allBooks, bookId, b => WithProgress(b, page, now));
    }
  }

  class Search {
    const store: BookStore
    var query: string
    var allBooks: seq<Book>
    var currentBook: Option<Book>

    /** Mounting the page loads every stored book; the query starts empty. */
    constructor (s: BookStore)
      ensures store == s
      ensures allBooks == Loaded(s.slot) && query == "" && currentBook == None
    {
      store := s;
      var storedBooks := s.LoadBooks();
      allBooks := storedBooks;
      query := "";
      currentBook := None;
    }

    /** `filteredBooks`, recomputed whenever `query` or `allBooks` change. */
    function FilteredBooks(): seq<Book>
      reads this
    {
      SearchResults(allBooks, query)
    }

    /** The input's `onChange`. */
    method SetQuery(q: string)
      modifies this
      ensures query == q && allBooks == old(allBooks) && currentBook == old(currentBook)
    {
      query := q;
    }

    method HandleBookSelect(book: Book)
      modifies this
      ensures currentBook == Some(book) && allBooks == old(allBooks) && query == old(query)
    {
      currentBook := Some(book);
    }

    method CloseReader()
      modifies this
      ensures currentBook == None && allBooks == old(allBooks) && query == old(query)
    {
      currentBook := None;
    }

    /** `handleBookmarkToggle` over `allBooks`; a throwing save skips the open-book update. */
    method HandleBookmarkToggle(bookId: string, now: int, first: WriteResult, retry: WriteResult) returns (threw: bool)
      modifies this, store
      ensures allBooks == ToggleBookmark(old(allBooks), bookId) && query == old(query)
      ensures FilteredBooks() == ToggleBookmark(old(FilteredBooks()), bookId)
      ensures store.slot == Saved(old(store.slot), allBooks, now, first, retry)
      ensures threw == SaveThrows(first, retry)
      ensures currentBook == if threw then old(currentBook) else SyncOpenBook(old(currentBook), bookId, Toggled)
      ensures first == Written ==> SameExceptFiles(Loaded(store.slot), allBooks)
    {
      MutatorsCommuteWithSearch(allBooks, query, bookId, 0, now);
      var updatedBooks := ToggleBookmark(allBooks, bookId);
      allBooks := updatedBooks;
      threw := store.SaveBooks(updatedBooks, now, first, retry);
      SaveThenLoad(old(store.slot), updatedBooks, now, retry);
      if threw {
        return;
      }
      if currentBook.Some? && currentBook.value.id == bookId {
        currentBook := Some(Toggled(currentBook.value));
      }
    }

    /** `handleUpdateProgress` over `allBooks`; a throwing save skips the open-book update. */
    method HandleUpdateProgress(bookId: string, page: int, now: int, first: WriteResult, retry: WriteResult)
      returns (threw: bool)
      modifies this, store
      ensures allBooks == SetProgress(old(allBooks), bookId, page, now) && query == old(query)
      ensures FilteredBooks() == SetProgress(old(FilteredBooks()), bookId, page, now)
      ensures store.slot == Saved(old(store.slot), allBooks, now, first, retry)
      ensures threw == SaveThrows(first, retry)
      ensures currentBook ==
        if threw then old(currentBook) else SyncOpenBook(old(currentBook), bookId, b => WithProgress(b, page, now))
      ensures first == Written ==> SameExceptFiles(Loaded(store.slot), allBooks)
    {
      MutatorsCommuteWithSearch(allBooks, query, bookId, page, now);
      var updatedBooks := SetProgress(allBooks, bookId, page, now);
      allBooks := updatedBooks;
      threw := store.SaveBooks(updatedBooks, now, first, retry);
      SaveThenLoad(old(store.slot), updatedBooks, now, retry);
      if threw {
        return;
      }
      if currentBook.Some? && currentBook.value.id == bookId {
        currentBook := Some(WithProgress(currentBook.value, page, now));
      }
    }
  }
}
