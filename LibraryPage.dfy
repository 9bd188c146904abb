/**
 * The Library page: its `books` state, the open book `currentBook`, and the
 * three handlers that rewrite the list, persist it whole and mirror the change
 * into the open book.
 */
module LibraryPage {
  import opened Wrappers
  import opened Books
  import opened Catalog
  import opened Storage

  class Library {
    const store: BookStore
    var books: seq<Book>
    var currentBook: Option<Book>

    /** Mounting the page loads the stored list; no book is open. */
    constructor (s: BookStore)
      ensures store == s
      ensures books == Loaded(s.slot) && currentBook == None
    {
      store := s;
      var storedBooks := s.LoadBooks();
      books := storedBooks;
      currentBook := None;
    }

    /** `handleBookSelect`: open a book in the reader. */
    method HandleBookSelect(book: Book)
      modifies this
      ensures currentBook == Some(book) && books == old(books)
    {
      currentBook := Some(book);
    }

    /** The reader's `onClose`. */
    method CloseReader()
      modifies this
      ensures currentBook == None && books == old(books)
    {
      currentBook := None;
    }

    /**
     * `handleBookAdded`: append the new book after the existing ones and save
     * the extended list; after a successful write the store holds the same list.
     */
    method HandleBookAdded(newBook: Book, now: int, first: WriteResult, retry: WriteResult) returns (threw: bool)
      modifies this, store
      ensures books == old(books) + [newBook]
      ensures store.slot == Saved(old(store.slot), books, now, first, retry)
      ensures threw == SaveThrows(first, retry)
      ensures currentBook == old(currentBook)
      ensures first == Written ==> SameExceptFiles(Loaded(store.slot), books)
    {
      var updatedBooks := books + [newBook];
      books := updatedBooks;
      threw := store.SaveBooks(updatedBooks, now, first, retry);
      SaveThenLoad(old(store.slot), updatedBooks, now, retry);
    }

    /**
     * A batch upload as the code performs it: the uploader calls the
     * `onBookAdded` it received when the batch started, so every call spreads
     * the `books` of that render and saves that list plus one book. A save
     * that throws is caught by the uploader, which moves on to the next file.
     */
    method UploadBatchAsWritten(added: seq<Book>, now: int, first: WriteResult, retry: WriteResult)
      modifies this, store
      ensures books == AddEachToCaptured(old(books), old(books), added)
      ensures added != [] ==> books == old(books) + [added[|added| - 1]]
      ensures store.slot == if added == [] then old(store.slot) else Saved(old(store.slot), books, now, first, retry)
      ensures currentBook == old(currentBook)
    {
      var captured := books;
      var i := 0;
      while i < |added|
        invariant 0 <= i <= |added|
        invariant AddEachToCaptured(captured, books, added[i..]) == AddEachToCaptured(captured, captured, added)
        invariant store.slot == if i == 0 then old(store.slot) else Saved(old(store.slot), books, now, first, retry)
        invariant currentBook == old(currentBook)
      {
        assert added[i..][0] == added[i] && added[i..][1..] == added[i + 1..];
        var previous := books;
        books := captured + [added[i]];
        var threw := store.SaveBooks(books, now, first, retry);
        SavedTwice(old(store.slot), previous, books, now, first, retry);
        i := i + 1;
      }
      if added != [] {
        OnlyLastAddedSurvives(captured, captured, added);
      }
    }

    /** A batch upload as intended: each book is added to the list the previous one left. */
    method UploadBatch(added: seq<Book>, now: int, first: WriteResult, retry: WriteResult)
      modifies this, store
      ensures books == old(books) + added
      ensures store.slot == if added == [] then old(store.slot) else Saved(old(store.slot), books, now, first, retry)
      ensures currentBook == old(currentBook)
    {
      var i := 0;
      while i < |added|
        invariant 0 <= i <= |added|
        invariant books == old(books) + added[..i]
        invariant store.slot == if i == 0 then old(store.slot) else Saved(old(store.slot), books, now, first, retry)
        invariant currentBook == old(currentBook)
      {
        var previous := books;
        var threw := HandleBookAdded(added[i], now, first, retry);
        SavedTwice(old(store.slot), previous, books, now, first, retry);
        assert added[..i + 1] == added[..i] + [added[i]];
        i := i + 1;
      }
      assert added[..|added|] == added;
    }

    /**
     * A bookmark toggle made while the reader draws a page, as the code
     * performs it: the render reports progress through the
     * `onUpdateProgress` of the render that started it, which maps that
     * render's `books` and open book. The list, the slot and the open book
     * end as if the toggle had never happened.
     */
    method ToggleDuringRenderAsWritten(bookId: string, page: int, now: int, first: WriteResult, retry: WriteResult)
      modifies this, store
      ensures books == SetProgress(old(books), bookId, page, now)
      ensures store.slot == Saved(old(store.slot), books, now, first, retry)
      ensures currentBook ==
        if SaveThrows(first, retry) then old(currentBook)
        else SyncOpenBook(old(currentBook), bookId, b => WithProgress(b, page, now))
    {
      var capturedBooks := books;
      var capturedOpen := currentBook;
      var threw := HandleBookmarkToggle(bookId, now, first, retry);
      var previous := books;
      var updatedBooks := SetProgress(capturedBooks, bookId, page, now);
      books := updatedBooks;
      threw := store.SaveBooks(updatedBooks, now, first, retry);
      SavedTwice(old(store.slot), previous, updatedBooks, now, first, retry);
      if threw {
        return;
      }
      if capturedOpen.Some? && capturedOpen.value.id == bookId {
        currentBook := Some(WithProgress(capturedOpen.value, page, now));
      }
    }

    /** The same toggle and report as intended: the report applies to the list the toggle left. */
    method ToggleDuringRender(bookId: string, page: int, now: int, first: WriteResult, retry: WriteResult)
      modifies this, store
      ensures books == SetProgress(ToggleBookmark(old(books), bookId), bookId, page, now)
      ensures store.slot == Saved(old(store.slot), books, now, first, retry)
      ensures currentBook ==
        if SaveThrows(first, retry) then old(currentBook)
        else SyncOpenBook(SyncOpenBook(old(currentBook), bookId, Toggled), bookId, b => WithProgress(b, page, now))
    {
      var threw := HandleBookmarkToggle(bookId, now, first, retry);
      var previous := books;
      threw := HandleUpdateProgress(bookId, page, now, first, retry);
      SavedTwice(old(store.slot), previous, books, now, first, retry);
    }

    /**
     * `handleBookmarkToggle`: flip the flag of the records with the id, save
     * the list, and flip the open book's flag if it is that book. A throwing
     * save skips the last step.
     */
    method HandleBookmarkToggle(bookId: string, now: int, first: WriteResult, retry: WriteResult) returns (threw: bool)
      modifies this, store
      ensures books == ToggleBookmark(old(books), bookId)
      ensures store.slot == Saved(old(store.slot), books, now, first, retry)
      ensures threw == SaveThrows(first, retry)
      ensures currentBook == if threw then old(currentBook) else SyncOpenBook(old(currentBook), bookId, Toggled)
      ensures first == Written ==> SameExceptFiles(Loaded(store.slot), books)
    {
      var updatedBooks := ToggleBookmark(books, bookId);
      books := updatedBooks;
      threw := store.SaveBooks(updatedBooks, now, first, retry);
      SaveThenLoad(old(store.slot), updatedBooks, now, retry);
      if threw {
        return;
      }
      if currentBook.Some? && currentBook.value.id == bookId {
        currentBook := Some(Toggled(currentBook.value));
      }
    }

    /**
     * `handleUpdateProgress`: set page and last-opened time on the records with
     * the id, save the list, and do the same to the open book if it is that book.
     */
    method HandleUpdateProgress(bookId: string, page: int, now: int, first: WriteResult, retry: WriteResult)
      returns (threw: bool)
      modifies this, store
      ensures books == SetProgress(old(books), bookId, page, now)
      ensures store.slot == Saved(old(store.slot), books, now, first, retry)
      ensures threw == SaveThrows(first, retry)
      ensures currentBook ==
        if threw then old(currentBook) else SyncOpenBook(old(currentBook), bookId, b => WithProgress(b, page, now))
      ensures first == Written ==> SameExceptFiles(Loaded(store.slot), books)
    {
      var updatedBooks := SetProgress(books, bookId, page, now);
      books := updatedBooks;
      threw := store.SaveBooks(updatedBooks, now, first, retry);
      SaveThenLoad(old(store.slot), updatedBooks, now, retry);
      if threw {
        return;
      }
      if currentBook.Some? && currentBook.value.id == bookId {
        currentBook := Some(WithProgress(currentBook.value, page, now));
      }
    }
  }
}
