/**
 * The Bookmarks page: `books` is a view of the stored books whose flag is
 * truthy. Its handlers reload the whole stored list, change and save that, and
 * then recompute or update the view.
 */
module BookmarksPage {
  import opened Wrappers
  import opened Books
  import opened Seqs
  import opened Catalog
  import opened Storage

  /** `books.filter(book => book.isBookmarked)`. */
  function BookmarkedView(books: seq<Book>): (r: seq<Book>)
    ensures IsSublist(r, books)
  {
    FilterIsSublist(IsBookmarked, books);
    Filter(IsBookmarked, books)
  }

  /** The view holds every occurrence of every bookmarked book and nothing else, in stored order. */
  lemma BookmarkedViewSpec(books: seq<Book>)
    ensures forall b :: b in BookmarkedView(books) <==> b in books && IsBookmarked(b)
    ensures IsSublist(BookmarkedView(books), books)
    ensures forall b :: multiset(BookmarkedView(books))[b] == if IsBookmarked(b) then multiset(books)[b] else 0
  {
    forall b: Book
      ensures b in BookmarkedView(books) <==> b in books && IsBookmarked(b)
      ensures multiset(BookmarkedView(books))[b] == if IsBookmarked(b) then multiset(books)[b] else 0
    {
      FilterMembership(IsBookmarked, books, b);
      FilterMultiplicity(IsBookmarked, books, b);
    }
    FilterIsSublist(IsBookmarked, books);
  }

  /**
   * After a toggle the recomputed view keeps every other bookmarked book, gains
   * no other book, and holds a toggled record iff it was not bookmarked before.
   */
  lemma ToggleUpdatesView(all: seq<Book>, bookId: string)
    ensures forall b: Book :: b.id != bookId ==>
      (b in BookmarkedView(ToggleBookmark(all, bookId)) <==> b in BookmarkedView(all))
    ensures forall k :: 0 <= k < |all| && all[k].id == bookId ==>
      (ToggleBookmark(all, bookId)[k] in BookmarkedView(ToggleBookmark(all, bookId)) <==> !IsBookmarked(all[k]))
  {
    var toggled := ToggleBookmark(all, bookId);
    ToggleBookmarkSpec(all, bookId);
    BookmarkedViewSpec(all);
    BookmarkedViewSpec(toggled);
    forall b: Book | b.id != bookId
      ensures b in toggled <==> b in all
    {
      if b in toggled {
        var k :| 0 <= k < |toggled| && toggled[k] == b;
        assert toggled[k].id == all[k].id;
      }
      if b in all {
        var k :| 0 <= k < |all| && all[k] == b;
      }
    }
  }

  /** Setting progress on the full list and then taking the view equals setting it on the view. */
  lemma ProgressCommutesWithView(all: seq<Book>, bookId: string, page: int, now: int)
    ensures BookmarkedView(SetProgress(all, bookId, page, now)) == SetProgress(BookmarkedView(all), bookId, page, now)
  {
    FilterMapByIdCommute(IsBookmarked, all, bookId, b => WithProgress(b, page, now));
  }

  class Bookmarks {
    const store: BookStore
    var books: seq<Book>
    var currentBook: Option<Book>

    /** Mounting the page shows the bookmarked stored books. */
    constructor (s: BookStore)
      ensures store == s
      ensures books == BookmarkedView(Loaded(s.slot)) && currentBook == None
    {
      store := s;
      var storedBooks := s.LoadBooks();
      books := BookmarkedView(storedBooks);
      currentBook := None;
    }

    method HandleBookSelect(book: Book)
      modifies this
      ensures currentBook == Some(book) && books == old(books)
    {
      currentBook := Some(book);
    }

    method CloseReader()
      modifies this
      ensures currentBook == None && books == old(books)
    {
      currentBook := None;
    }

    /**
     * `handleBookmarkToggle`: reload the full list, toggle the id there, save
     * the full list, show its bookmarked books, and close the reader if the
     * open book was unbookmarked (else mark it bookmarked). A throwing save
     * skips everything after it.
     */
    method HandleBookmarkToggle(bookId: string, now: int, first: WriteResult, retry: WriteResult) returns (threw: bool)
      modifies this, store
      ensures store.slot == Saved(old(store.slot), ToggleBookmark(Loaded(old(store.slot)), bookId), now, first, retry)
      ensures threw == SaveThrows(first, retry)
      ensures books == if threw then old(books) else BookmarkedView(ToggleBookmark(Loaded(old(store.slot)), bookId))
      ensures currentBook ==
        if threw || old(currentBook).None? || old(currentBook).value.id != bookId then old(currentBook)
        else if IsBookmarked(old(currentBook).value) then None
        else Some(old(currentBook).value.(isBookmarked := Some(true)))
      ensures first == Written ==> SameExceptFiles(Loaded(store.slot), ToggleBookmark(Loaded(old(store.slot)), bookId))
    {
      var allBooks := store.LoadBooks();
      var updatedAllBooks := ToggleBookmark(allBooks, bookId);
      threw := store.SaveBooks(updatedAllBooks, now, first, retry);
      SaveThenLoad(old(store.slot), updatedAllBooks, now, retry);
      if threw {
        return;
      }
      books := BookmarkedView(updatedAllBooks);
      if currentBook.Some? && currentBook.value.id == bookId {
        var isBookmarked := !Truthy(currentBook.value.isBookmarked);
        if !isBookmarked {
          currentBook := None;
        } else {
          currentBook := Some(currentBook.value.(isBookmarked := Some(true)));
        }
      }
    }

    /**
     * `handleUpdateProgress`: reload, update and save the full list, then apply
     * the same update to the view and the open book.
     */
    method HandleUpdateProgress(bookId: string, page: int, now: int, first: WriteResult, retry: WriteResult)
      returns (threw: bool)
      modifies this, store
      ensures store.slot == Saved(old(store.slot), SetProgress(Loaded(old(store.slot)), bookId, page, now), now, first, retry)
      ensures threw == SaveThrows(first, retry)
      ensures books == if threw then old(books) else SetProgress(old(books), bookId, page, now)
      ensures Ids(books) == Ids(old(books))
      ensures currentBook ==
        if threw then old(currentBook) else SyncOpenBook(old(currentBook), bookId, b => WithProgress(b, page, now))
      ensures first == Written ==>
        SameExceptFiles(Loaded(store.slot), SetProgress(Loaded(old(store.slot)), bookId, page, now))
    {
      var allBooks := store.LoadBooks();
      var updatedAllBooks := SetProgress(allBooks, bookId, page, now);
      threw := store.SaveBooks(updatedAllBooks, now, first, retry);
      SaveThenLoad(old(store.slot), updatedAllBooks, now, retry);
      if threw {
        return;
      }
      MutatorsKeepIds(books, bookId, page, now);
      books := SetProgress(books, bookId, page, now);
      if currentBook.Some? && currentBook.value.id == bookId {
        currentBook := Some(WithProgress(currentBook.value, page, now));
      }
    }
  }
}
