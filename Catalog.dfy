/**
 * The list mutators the pages (Library, Index, Search, Bookmarks) each carry a
 * copy of: `books.map(book => book.id === bookId ? change(book) : book)` with
 * the bookmark flip or the progress update as the change, and the matching
 * update of the copy of the open book.
 */
module Catalog {
  import opened Wrappers
  import opened Books
  import opened Seqs

  /** `books.map((book) => book.id === bookId ? change(book) : book)`. */
  function MapById(books: seq<Book>, bookId: string, change: Book -> Book): (r: seq<Book>)
    ensures |r| == |books|
  {
    if books == [] then []
    else [if books[0].id == bookId then change(books[0]) else books[0]] + MapById(books[1..], bookId, change)
  }

  /** Position by position, only the records with the id are changed, and they are changed by `change`. */
  lemma {:induction false} MapByIdAt(books: seq<Book>, bookId: string, change: Book -> Book, k: int)
    requires 0 <= k < |books|
    ensures MapById(books, bookId, change)[k] == if books[k].id == bookId then change(books[k]) else books[k]
  {
    if k > 0 {
      MapByIdAt(books[1..], bookId, change, k - 1);
    }
  }

  /** An id that no record carries leaves the list as it is. */
  lemma {:induction false} MapByIdAbsent(books: seq<Book>, bookId: string, change: Book -> Book)
    requires bookId !in Ids(books)
    ensures MapById(books, bookId, change) == books
  {
    if books != [] {
      assert books[0].id == Ids(books)[0];
      assert Ids(books[1..]) == Ids(books)[1..];
      MapByIdAbsent(books[1..], bookId, change);
      assert books == [books[0]] + books[1..];
    }
  }

  /** `{ ...book, isBookmarked: !book.isBookmarked }`: an absent flag becomes `true`. */
  function Toggled(b: Book): (r: Book)
    ensures Truthy(r.isBookmarked) <==> !Truthy(b.isBookmarked)
    ensures r.isBookmarked.Some?
    ensures r.(isBookmarked := b.isBookmarked) == b
  {
    b.(isBookmarked := Some(!Truthy(b.isBookmarked)))
  }

  /** `{ ...book, currentPage, lastOpened: now }`. */
  function WithProgress(b: Book, page: int, now: int): (r: Book)
    ensures r.currentPage == page && r.lastOpened == now
    ensures r.(currentPage := b.currentPage, lastOpened := b.lastOpened) == b
  {
    b.(currentPage := page, lastOpened := now)
  }

  /** The bookmark toggle every page applies to its list. */
  function ToggleBookmark(books: seq<Book>, bookId: string): seq<Book>
  {
    MapById(books, bookId, Toggled)
  }

  /** The progress update every page applies to its list. */
  function SetProgress(books: seq<Book>, bookId: string, page: int, now: int): seq<Book>
  {
    MapById(books, bookId, b => WithProgress(b, page, now))
  }

  /** `if (currentBook?.id === bookId) setCurrentBook(change(currentBook))`. */
  function SyncOpenBook(open: Option<Book>, bookId: string, change: Book -> Book): (r: Option<Book>)
    ensures r.Some? <==> open.Some?
    ensures open.Some? && open.value.id == bookId ==> r == Some(change(open.value))
    ensures open.None? || open.value.id != bookId ==> r == open
  {
    if open.Some? && open.value.id == bookId then Some(change(open.value)) else open
  }

  /**
   * The toggle keeps length and order, negates the flag of every record with
   * the id (absent becomes `true`), changes nothing else in them, and leaves
   * every other record as it was.
   */
  lemma ToggleBookmarkSpec(books: seq<Book>, bookId: string)
    ensures |ToggleBookmark(books, bookId)| == |books|
    ensures forall k :: 0 <= k < |books| && books[k].id != bookId ==> ToggleBookmark(books, bookId)[k] == books[k]
    ensures forall k :: 0 <= k < |books| && books[k].id == bookId ==>
      Truthy(ToggleBookmark(books, bookId)[k].isBookmarked) == !Truthy(books[k].isBookmarked)
      && ToggleBookmark(books, bookId)[k].(isBookmarked := books[k].isBookmarked) == books[k]
  {
    forall k | 0 <= k < |books| {
      MapByIdAt(books, bookId, Toggled, k);
    }
  }

  /** The progress update sets page and time on the records with the id only, keeping all their other fields. */
  lemma SetProgressSpec(books: seq<Book>, bookId: string, page: int, now: int)
    ensures |SetProgress(books, bookId, page, now)| == |books|
    ensures forall k :: 0 <= k < |books| && books[k].id != bookId ==> SetProgress(books, bookId, page, now)[k] == books[k]
    ensures forall k :: 0 <= k < |books| && books[k].id == bookId ==>
      SetProgress(books, bookId, page, now)[k] == books[k].(currentPage := page, lastOpened := now)
  {
    forall k | 0 <= k < |books| {
      MapByIdAt(books, bookId, b => WithProgress(b, page, now), k);
    }
  }

  /** Toggling a record twice leaves a boolean flag as it was and turns an absent flag into `false`. */
  lemma ToggledTwice(b: Book)
    ensures Toggled(Toggled(b)) == b.(isBookmarked := Some(Truthy(b.isBookmarked)))
  {
  }

  /** Toggling the same id twice restores the list when every record with that id has a boolean flag. */
  lemma {:induction false} ToggleBookmarkTwice(books: seq<Book>, bookId: string)
    requires forall k :: 0 <= k < |books| && books[k].id == bookId ==> books[k].isBookmarked.Some?
    ensures ToggleBookmark(ToggleBookmark(books, bookId), bookId) == books
  {
    if books != [] {
      var once := ToggleBookmark(books, bookId);
      var head := if books[0].id == bookId then Toggled(books[0]) else books[0];
      assert once == [head] + ToggleBookmark(books[1..], bookId);
      assert once[0] == head && once[1..] == ToggleBookmark(books[1..], bookId);
      ToggleBookmarkTwice(books[1..], bookId);
      assert head.id == books[0].id;
      if books[0].id == bookId {
        assert books[0].isBookmarked.Some?;
        ToggledTwice(books[0]);
        if books[0].isBookmarked.value {
          assert Truthy(books[0].isBookmarked);
        } else {
          assert !Truthy(books[0].isBookmarked);
        }
        assert Toggled(head) == books[0];
      }
      assert (if head.id == bookId then Toggled(head) else head) == books[0];
      assert ToggleBookmark(once, bookId)
          == [if head.id == bookId then Toggled(head) else head] + ToggleBookmark(once[1..], bookId);
      assert books == [books[0]] + books[1..];
    }
  }

  /** A change that keeps ids keeps the list of ids. */
  lemma MapByIdKeepsIds(books: seq<Book>, bookId: string, change: Book -> Book)
    requires forall b :: change(b).id == b.id
    ensures Ids(MapById(books, bookId, change)) == Ids(books)
  {
    forall k | 0 <= k < |books|
      ensures Ids(MapById(books, bookId, change))[k] == Ids(books)[k]
    {
      MapByIdAt(books, bookId, change, k);
    }
  }

  /** Neither the toggle nor the progress update adds, removes or reorders records. */
  lemma MutatorsKeepIds(books: seq<Book>, bookId: string, page: int, now: int)
    ensures Ids(ToggleBookmark(books, bookId)) == Ids(books)
    ensures Ids(SetProgress(books, bookId, page, now)) == Ids(books)
  {
    MapByIdKeepsIds(books, bookId, Toggled);
    MapByIdKeepsIds(books, bookId, b => WithProgress(b, page, now));
  }

  /** A progress update does not change any record's bookmark flag. */
  lemma SetProgressKeepsFlags(books: seq<Book>, bookId: string, page: int, now: int)
    ensures forall k :: 0 <= k < |books| ==>
      SetProgress(books, bookId, page, now)[k].isBookmarked == books[k].isBookmarked
  {
    SetProgressSpec(books, bookId, page, now);
  }

  /**
   * A change the test cannot see commutes with filtering: changing the
   * records with the id and then filtering equals filtering and then changing.
   */
  lemma {:induction false} FilterMapByIdCommute(p: Book -> bool, books: seq<Book>, bookId: string, change: Book -> Book)
    requires forall b :: p(change(b)) == p(b)
    ensures Filter(p, MapById(books, bookId, change)) == MapById(Filter(p, books), bookId, change)
  {
    if books != [] {
      FilterMapByIdCommute(p, books[1..], bookId, change);
      var head := if books[0].id == bookId then change(books[0]) else books[0];
      var rest := MapById(books[1..], bookId, change);
      assert MapById(books, bookId, change) == [head] + rest;
      assert ([head] + rest)[1..] == rest;
      assert p(head) == p(books[0]);
      if p(books[0]) {
        var kept := [books[0]] + Filter(p, books[1..]);
        assert Filter(p, books) == kept;
        assert kept[0] == books[0] && kept[1..] == Filter(p, books[1..]);
        assert MapById(kept, bookId, change) == [head] + MapById(kept[1..], bookId, change);
        assert Filter(p, [head] + rest) == [head] + Filter(p, rest);
      } else {
        assert Filter(p, books) == Filter(p, books[1..]);
        assert Filter(p, [head] + rest) == Filter(p, rest);
      }
    }
  }

  /**
   * A progress report computed from the list as it was before a bookmark
   * toggle gives every toggled record its old flag back: the toggle is lost.
   * Computed from the list the toggle left, it keeps the toggle.
   */
  lemma StaleProgressLosesToggle(books: seq<Book>, bookId: string, page: int, now: int, k: int)
    requires 0 <= k < |books| && books[k].id == bookId
    ensures SetProgress(books, bookId, page, now)[k].isBookmarked == books[k].isBookmarked
    ensures Truthy(SetProgress(books, bookId, page, now)[k].isBookmarked)
      != Truthy(ToggleBookmark(books, bookId)[k].isBookmarked)
    ensures SetProgress(ToggleBookmark(books, bookId), bookId, page, now)[k].isBookmarked
      == ToggleBookmark(books, bookId)[k].isBookmarked
  {
    SetProgressKeepsFlags(books, bookId, page, now);
    MapByIdAt(books, bookId, Toggled, k);
    SetProgressKeepsFlags(ToggleBookmark(books, bookId), bookId, page, now);
  }

  // --------------------------------------------------------- batch upload

  /**
   * The list a batch upload leaves when every `onBookAdded` call appends to
   * the list `captured` when the batch started: each call's list replaces the
   * previous call's, so `current` is whatever the last call left.
   */
  function AddEachToCaptured(captured: seq<Book>, current: seq<Book>, added: seq<Book>): seq<Book>
    decreases |added|
  {
    if added == [] then current else AddEachToCaptured(captured, captured + [added[0]], added[1..])
  }

  /** Of a non-empty batch, only the last book is added to the captured list. */
  lemma {:induction false} OnlyLastAddedSurvives(captured: seq<Book>, current: seq<Book>, added: seq<Book>)
    requires added != []
    ensures AddEachToCaptured(captured, current, added) == captured + [added[|added| - 1]]
    decreases |added|
  {
    if |added| > 1 {
      OnlyLastAddedSurvives(captured, captured + [added[0]], added[1..]);
    }
  }

  /** Uploading two new books at once keeps the second and loses the first. */
  lemma TwoFileBatchKeepsOnlySecond(captured: seq<Book>, b1: Book, b2: Book)
    requires b1 !in captured && b1 != b2
    ensures AddEachToCaptured(captured, captured, [b1, b2]) == captured + [b2]
    ensures b1 !in AddEachToCaptured(captured, captured, [b1, b2])
  {
    OnlyLastAddedSurvives(captured, captured, [b1, b2]);
  }
}
