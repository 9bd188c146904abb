/**
 * The home page: the same three handlers as the Library page, except that the
 * bookmark toggle also produces one toast per toggled record, chosen from that
 * record's new flag. The page shows the dashboard and up to ten recent books.
 */
module IndexPage {
  import opened Wrappers
  import opened Books
  import opened Seqs
  import opened Catalog
  import opened Storage
  import RecentBooks

  /** The `maxItems` the home page passes to the recent-books panel. */
  const RecentItems: int := 10

  /** The home page lists the ten most recently opened books, or all of them when there are fewer. */
  lemma RecentPanelSize(books: seq<Book>)
    ensures |RecentBooks.Shown(books, RecentItems)| == if |books| <= RecentItems then |books| else RecentItems
  {
    RecentBooks.ShownSpec(books, RecentItems);
  }

  /** The toast for a record whose flag has just been set to `isBookmarked`. */
  function BookmarkToast(isBookmarked: bool): string
  {
    if isBookmarked then "Book bookmarked" else "Bookmark removed"
  }

  /** The records the toggle changes, in list order. */
  function WithId(books: seq<Book>, bookId: string): seq<Book>
  {
    Filter((b: Book) => b.id == bookId, books)
  }

  /** The toasts raised inside the `map`: one per record with the id, from its negated flag. */
  function ToggleToasts(books: seq<Book>, bookId: string): (r: seq<string>)
    ensures |r| == |WithId(books, bookId)|
    ensures forall k :: 0 <= k < |r| ==> r[k] == "Book bookmarked" || r[k] == "Bookmark removed"
  {
    Map((b: Book) => BookmarkToast(!Truthy(b.isBookmarked)), WithId(books, bookId))
  }

  /** The records with the id after the toggle are the toggled records with the id before it. */
  lemma {:induction false} WithIdAfterToggle(books: seq<Book>, bookId: string)
    ensures WithId(ToggleBookmark(books, bookId), bookId) == Map(Toggled, WithId(books, bookId))
  {
    if books != [] {
      WithIdAfterToggle(books[1..], bookId);
      var head := if books[0].id == bookId then Toggled(books[0]) else books[0];
      var rest := ToggleBookmark(books[1..], bookId);
      assert ToggleBookmark(books, bookId) == [head] + rest;
      assert ([head] + rest)[1..] == rest;
      if books[0].id == bookId {
        assert WithId(books, bookId) == [books[0]] + WithId(books[1..], bookId);
        assert ([books[0]] + WithId(books[1..], bookId))[1..] == WithId(books[1..], bookId);
      }
    }
  }

  /**
   * There is one toast per record with the id, and the k-th toast says "Book
   * bookmarked" exactly when the k-th such record is bookmarked after the toggle.
   */
  lemma ToggleToastsSpec(books: seq<Book>, bookId: string)
    ensures |ToggleToasts(books, bookId)| == |WithId(ToggleBookmark(books, bookId), bookId)|
    ensures forall k :: 0 <= k < |ToggleToasts(books, bookId)| ==>
      (ToggleToasts(books, bookId)[k] == "Book bookmarked" <==> IsBookmarked(WithId(ToggleBookmark(books, bookId), bookId)[k]))
      && (ToggleToasts(books, bookId)[k] == "Bookmark removed" <==> !IsBookmarked(WithId(ToggleBookmark(books, bookId), bookId)[k]))
  {
    WithIdAfterToggle(books, bookId);
  }

  /** An id that no record carries raises no toast. */
  lemma AbsentIdRaisesNoToast(books: seq<Book>, bookId: string)
    requires bookId !in Ids(books)
    ensures ToggleToasts(books, bookId) == []
  {
    forall k | 0 <= k < |books|
      ensures books[k].id != bookId
    {
      assert Ids(books)[k] == books[k].id;
    }
    FilterNoneKept((b: Book) => b.id == bookId, books);
  }

  class Index {
    const store: BookStore
    var books: seq<Book>
    var currentBook: Option<Book>

    /** Mounting the page loads the stored list; no book is open. */
    constructor (s: BookStore)
      ensures store == s
      ensures books == Loaded(s.slot) && currentBook == None
    {
      store := s;
      var storedBooks := s.LoadBooks();
      books := storedBooks;
      currentBook := None;
    }

    method HandleBookSelect(book: Book)
      modifies this
      ensures currentBook == Some(book) && books == old(books)
    {
      currentBook := Some(book);
    }

    method CloseReader()
      modifies this
      ensures currentBook == None && books == old(books)
    {
      currentBook := None;
    }

    /** `handleBookAdded`: append and save the extended list. */
    method HandleBookAdded(newBook: Book, now: int, first: WriteResult, retry: WriteResult) returns (threw: bool)
      modifies this, store
      ensures books == old(books) + [newBook]
      ensures store.slot == Saved(old(store.slot), books, now, first, retry)
      ensures threw == SaveThrows(first, retry)
      ensures currentBook == old(currentBook)
      ensures first == Written ==> SameExceptFiles(Loaded(store.slot), books)
    {
      var updatedBooks := books + [newBook];
      books := updatedBooks;
      threw := store.SaveBooks(updatedBooks, now, first, retry);
      SaveThenLoad(old(store.slot), updatedBooks, now, retry);
    }

    /**
     * A batch upload as the code performs it: the uploader calls the
     * `onBookAdded` it received when the batch started, so every call spreads
     * the `books` of that render and saves that list plus one book. A save
     * that throws is caught by the uploader, which moves on to the next file.
     */
    method UploadBatchAsWritten(added: seq<Book>, now: int, first: WriteResult, retry: WriteResult)
      modifies this, store
      ensures books == AddEachToCaptured(old(books), old(books), added)
      ensures added != [] ==> books == old(books) + [added[|added| - 1]]
      ensures store.slot == if added == [] then old(store.slot) else Saved(old(store.slot), books, now, first, retry)
      ensures currentBook == old(currentBook)
    {
      var captured := books;
      var i := 0;
      while i < |added|
        invariant 0 <= i <= |added|
        invariant AddEachToCaptured(captured, books, added[i..]) == AddEachToCaptured(captured, captured, added)
        invariant store.slot == if i == 0 then old(store.slot) else Saved(old(store.slot), books, now, first, retry)
        invariant currentBook == old(currentBook)
      {
        assert added[i..][0] == added[i] && added[i..][1..] == added[i + 1..];
        var previous := books;
        books := captured + [added[i]];
        var threw := store.SaveBooks(books, now, first, retry);
        SavedTwice(old(store.slot), previous, books, now, first, retry);
        i := i + 1;
      }
      if added != [] {
        OnlyLastAddedSurvives(captured, captured, added);
      }
    }

    /** A batch upload as intended: each book is added to the list the previous one left. */
    method UploadBatch(added: seq<Book>, now: int, first: WriteResult, retry: WriteResult)
      modifies this, store
      ensures books == old(books) + added
      ensures store.slot == if added == [] then old(store.slot) else Saved(old(store.slot), books, now, first, retry)
      ensures currentBook == old(currentBook)
    {
      var i := 0;
      while i < |added|
        invariant 0 <= i <= |added|
        invariant books == old(books) + added[..i]
        invariant store.slot == if i == 0 then old(store.slot) else Saved(old(store.slot), books, now, first, retry)
        invariant currentBook == old(currentBook)
      {
        var previous := books;
        var threw := HandleBookAdded(added[i], now, first, retry);
        SavedTwice(old(store.slot), previous, books, now, first, retry);
        assert added[..i + 1] == added[..i] + [added[i]];
        i := i + 1;
      }
      assert added[..|added|] == added;
    }

    /**
     * `handleBookmarkToggle`: the toasts are raised while the list is mapped,
     * so they appear even when the save that follows throws.
     */
    method HandleBookmarkToggle(bookId: string, now: int, first: WriteResult, retry: WriteResult)
      returns (toasts: seq<string>, threw: bool)
      modifies this, store
      ensures toasts == ToggleToasts(old(books), bookId)
      ensures books == ToggleBookmark(old(books), bookId)
      ensures store.slot == Saved(old(store.slot), books, now, first, retry)
      ensures threw == SaveThrows(first, retry)
      ensures currentBook == if threw then old(currentBook) else SyncOpenBook(old(currentBook), bookId, Toggled)
      ensures first == Written ==> SameExceptFiles(Loaded(store.slot), books)
    {
      toasts := ToggleToasts(books, bookId);
      var updatedBooks := ToggleBookmark(books, bookId);
      books := updatedBooks;
      threw := store.SaveBooks(updatedBooks, now, first, retry);
      SaveThenLoad(old(store.slot), updatedBooks, now, retry);
      if threw {
        return;
      }
      if currentBook.Some? && currentBook.value.id == bookId {
        currentBook := Some(Toggled(currentBook.value));
      }
    }

    /** `handleUpdateProgress`, as on the Library page. */
    method HandleUpdateProgress(bookId: string, page: int, now: int, first: WriteResult, retry: WriteResult)
      returns (threw: bool)
      modifies this, store
      ensures books == SetProgress(old(books), bookId, page, now)
      ensures store.slot == Saved(old(store.slot), books, now, first, retry)
      ensures threw == SaveThrows(first, retry)
      ensures currentBook ==
        if threw then old(currentBook) else SyncOpenBook(old(currentBook), bookId, b => WithProgress(b, page, now))
      ensures first == Written ==> SameExceptFiles(Loaded(store.slot), books)
    {
      var updatedBooks := SetProgress(books, bookId, page, now);
      books := updatedBooks;
      threw := store.SaveBooks(updatedBooks, now, first, retry);
      SaveThenLoad(old(store.slot), updatedBooks, now, retry);
      if threw {
        return;
      }
      if currentBook.Some? && currentBook.value.id == bookId {
        currentBook := Some(WithProgress(currentBook.value, page, now));
      }
    }
  }
}
