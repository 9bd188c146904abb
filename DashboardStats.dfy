/**
 * The dashboard counters over the library, and the completion rate derived
 * from them. The "seven days ago" instant is a parameter: the clock read and
 * the calendar arithmetic behind it are not modelled.
 */
module DashboardStats {
  import opened Books
  import opened Seqs
  import opened Numeric
  import opened Catalog

  /** `book.currentPage > 1`. */
  predicate Started(b: Book)
  {
    b.currentPage > 1
  }

  /** `book.totalPages && book.currentPage === book.totalPages`: a page count of 0 is falsy. */
  predicate Completed(b: Book)
  {
    b.totalPages != 0 && b.currentPage == b.totalPages
  }

  /** `books.reduce((total, book) => total + (book.currentPage - 1), 0)`. */
  function PagesRead(books: seq<Book>): int
  {
    if books == [] then 0 else (books[0].currentPage - 1) + PagesRead(books[1..])
  }

  datatype Stats = Stats(
    totalBooks: nat,
    booksStarted: nat,
    booksCompleted: nat,
    bookmarkedBooks: nat,
    totalPagesRead: int,
    recentlyReadBooks: nat)

  /** `stats`; a book counts as recently read when it was opened at or after `sevenDaysAgo`. */
  function ComputeStats(books: seq<Book>, sevenDaysAgo: int): (r: Stats)
    ensures r.totalBooks == |books|
    ensures r.booksStarted <= r.totalBooks && r.booksCompleted <= r.totalBooks
    ensures r.bookmarkedBooks <= r.totalBooks && r.recentlyReadBooks <= r.totalBooks
  {
    Stats(
      |books|,
      Count(Started, books),
      Count(Completed, books),
      Count(IsBookmarked, books),
      PagesRead(books),
      Count((b: Book) => b.lastOpened >= sevenDaysAgo, books))
  }

  /** `completionRate`: 0 for an empty library, otherwise the rounded percentage of completed books. */
  function CompletionRate(stats: Stats): (r: int)
    ensures stats.totalBooks == 0 ==> r == 0
    ensures stats.booksCompleted <= stats.totalBooks ==> 0 <= r <= 100
  {
    if stats.totalBooks == 0 then 0
    else
      if stats.booksCompleted <= stats.totalBooks then
        RoundedPercentBounds(stats.booksCompleted, stats.totalBooks);
        RoundedPercent(stats.booksCompleted, stats.totalBooks)
      else RoundedPercent(stats.booksCompleted, stats.totalBooks)
  }

  /** The pages-read total is non-negative when every book is at page 1 or later. */
  lemma {:induction false} PagesReadNonNegative(books: seq<Book>)
    requires forall k :: 0 <= k < |books| ==> books[k].currentPage >= 1
    ensures PagesRead(books) >= 0
  {
    if books != [] {
      PagesReadNonNegative(books[1..]);
    }
  }

  /** When no book is past its last page, the total is at most what it would be with every book on its last page. */
  lemma {:induction false} PagesReadBelowTotal(books: seq<Book>)
    requires forall k :: 0 <= k < |books| ==> books[k].currentPage <= books[k].totalPages
    ensures PagesRead(books) <= PagesRead(seq(|books|, k requires 0 <= k < |books| => books[k].(currentPage := books[k].totalPages)))
  {
    var last := seq(|books|, k requires 0 <= k < |books| => books[k].(currentPage := books[k].totalPages));
    if books != [] {
      PagesReadBelowTotal(books[1..]);
      assert last[1..] == seq(|books[1..]|, k requires 0 <= k < |books[1..]| => books[1..][k].(currentPage := books[1..][k].totalPages));
    }
  }

  /**
   * The rate lies in [0, 100]; it is 0 for an empty library or when nothing is
   * completed, 100 when everything is, and in general 100 exactly when at least
   * 99.5% of the books are completed.
   */
  lemma CompletionRateSpec(books: seq<Book>, sevenDaysAgo: int)
    ensures var s := ComputeStats(books, sevenDaysAgo);
      0 <= CompletionRate(s) <= 100
      && (books == [] ==> CompletionRate(s) == 0)
      && (s.booksCompleted == 0 ==> CompletionRate(s) == 0)
      && (books != [] ==> (CompletionRate(s) == 100 <==> 200 * s.booksCompleted >= 199 * s.totalBooks))
  {
    var s := ComputeStats(books, sevenDaysAgo);
    if books != [] {
      RoundedPercentBounds(s.booksCompleted, s.totalBooks);
      RoundedPercentIsHundred(s.booksCompleted, s.totalBooks);
      RoundedPercentIsZero(s.booksCompleted, s.totalBooks);
    }
  }

  /** A library whose every book is completed has a rate of 100. */
  lemma AllCompletedIsHundred(books: seq<Book>, sevenDaysAgo: int)
    requires books != [] && forall k :: 0 <= k < |books| ==> Completed(books[k])
    ensures CompletionRate(ComputeStats(books, sevenDaysAgo)) == 100
  {
    FilterAllKept(Completed, books);
    CompletionRateSpec(books, sevenDaysAgo);
  }

  /** A change that keeps a test's outcome on every book keeps the count of books passing it. */
  lemma {:induction false} CountMapById(p: Book -> bool, books: seq<Book>, bookId: string, change: Book -> Book)
    requires forall b :: p(change(b)) == p(b)
    ensures Count(p, MapById(books, bookId, change)) == Count(p, books)
  {
    if books != [] {
      var head := if books[0].id == bookId then change(books[0]) else books[0];
      var rest := MapById(books[1..], bookId, change);
      assert MapById(books, bookId, change) == [head] + rest;
      assert ([head] + rest)[1..] == rest;
      CountMapById(p, books[1..], bookId, change);
    }
  }

  /** A progress update leaves the bookmarked counter as it was. */
  lemma ProgressKeepsBookmarkedCount(books: seq<Book>, bookId: string, page: int, now: int, sevenDaysAgo: int)
    ensures ComputeStats(SetProgress(books, bookId, page, now), sevenDaysAgo).bookmarkedBooks
      == ComputeStats(books, sevenDaysAgo).bookmarkedBooks
  {
    CountMapById(IsBookmarked, books, bookId, b => WithProgress(b, page, now));
  }

  /**
   * A toggle moves the bookmarked counter by the records with the id: each one
   * that was bookmarked is subtracted, each one that was not is added.
   */
  lemma {:induction false} ToggleMovesBookmarkedCount(books: seq<Book>, bookId: string)
    ensures Count(IsBookmarked, ToggleBookmark(books, bookId))
      + Count((b: Book) => b.id == bookId && IsBookmarked(b), books)
      == Count(IsBookmarked, books)
      + Count((b: Book) => b.id == bookId && !IsBookmarked(b), books)
  {
    if books != [] {
      var head := if books[0].id == bookId then Toggled(books[0]) else books[0];
      var rest := ToggleBookmark(books[1..], bookId);
      assert ToggleBookmark(books, bookId) == [head] + rest;
      assert ([head] + rest)[1..] == rest;
      ToggleMovesBookmarkedCount(books[1..], bookId);
    }
  }
}
