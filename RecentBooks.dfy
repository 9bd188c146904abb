/**
 * The recent-books panel: a copy of the library sorted by `lastOpened`,
 * newest first, cut to `maxItems` entries, each shown with its rounded
 * reading progress.
 */
module RecentBooks {
  import opened Books
  import opened Seqs
  import opened Numeric
  import BookGrid

  /** The default of the optional `maxItems` prop. */
  const DefaultMaxItems: int := 5

  /** The end index `Array.prototype.slice(0, end)` uses: negative ends count from the back. */
  function SliceEnd(length: nat, end: int): (e: nat)
    ensures e <= length
    ensures end >= 0 ==> e == if end <= length then end else length
    ensures end < 0 ==> e == if length + end >= 0 then length + end else 0
  {
    if end < 0 then (if length + end >= 0 then length + end else 0)
    else if end <= length then end
    else length
  }

  /** The sort of the copy: the grid's comparator for `lastOpened`, `b - a`. */
  function ByRecency(books: seq<Book>): seq<Book>
  {
    BookGrid.SortBooks(BookGrid.ByLastOpened, books)
  }

  /** `sortedBooks`: `[...books].sort(...).slice(0, maxItems)`. */
  function Shown(books: seq<Book>, maxItems: int): (r: seq<Book>)
    ensures |r| <= |books|
    ensures maxItems >= 0 ==> |r| <= maxItems
  {
    var sorted := ByRecency(books);
    assert |sorted| == |multiset(sorted)| == |books|;
    sorted[..SliceEnd(|sorted|, maxItems)]
  }

  /** The books the slice leaves out. */
  function Omitted(books: seq<Book>, maxItems: int): seq<Book>
  {
    var sorted := ByRecency(books);
    sorted[SliceEnd(|sorted|, maxItems)..]
  }

  /**
   * With a non-negative `maxItems` the panel shows `min(|books|, maxItems)`
   * books, newest first; the shown and the omitted books together are exactly
   * the input, and every shown book was opened no earlier than any omitted one.
   */
  lemma ShownSpec(books: seq<Book>, maxItems: int)
    ensures maxItems >= 0 ==> |Shown(books, maxItems)| == if maxItems <= |books| then maxItems else |books|
    ensures maxItems < 0 ==> |Shown(books, maxItems)| == if |books| + maxItems >= 0 then |books| + maxItems else 0
    ensures forall i, j :: 0 <= i < j < |Shown(books, maxItems)| ==>
      Shown(books, maxItems)[i].lastOpened >= Shown(books, maxItems)[j].lastOpened
    ensures multiset(Shown(books, maxItems)) + multiset(Omitted(books, maxItems)) == multiset(books)
    ensures forall i, j :: 0 <= i < |Shown(books, maxItems)| && 0 <= j < |Omitted(books, maxItems)| ==>
      Shown(books, maxItems)[i].lastOpened >= Omitted(books, maxItems)[j].lastOpened
  {
    var sorted := ByRecency(books);
    BookGrid.SortBooksSpec(BookGrid.ByLastOpened, books);
    assert |sorted| == |books| by {
      assert |multiset(sorted)| == |multiset(books)|;
    }
    var e := SliceEnd(|sorted|, maxItems);
    assert sorted == sorted[..e] + sorted[e..];
    forall i, j | 0 <= i < |Shown(books, maxItems)| && 0 <= j < |Omitted(books, maxItems)|
      ensures Shown(books, maxItems)[i].lastOpened >= Omitted(books, maxItems)[j].lastOpened
    {
      assert BookGrid.Precedes(BookGrid.ByLastOpened, sorted[i], sorted[e + j]);
    }
  }

  /** Without a `maxItems` prop the panel lists the five most recently opened books, or all when there are fewer. */
  lemma DefaultPanelSize(books: seq<Book>)
    ensures |Shown(books, DefaultMaxItems)| == if |books| <= DefaultMaxItems then |books| else DefaultMaxItems
  {
    ShownSpec(books, DefaultMaxItems);
  }

  /** Every shown book comes from the input. */
  lemma ShownComeFromInput(books: seq<Book>, maxItems: int)
    ensures forall b :: b in Shown(books, maxItems) ==> b in books
  {
    ShownSpec(books, maxItems);
    forall b | b in Shown(books, maxItems)
      ensures b in books
    {
      assert b in multiset(Shown(books, maxItems));
      assert b in multiset(books);
    }
  }

  /** `progressPercent`: 0 unless the page count is positive, else the rounded percentage. */
  function ProgressPercent(b: Book): (r: int)
    ensures b.totalPages <= 0 ==> r == 0
    ensures 0 <= b.currentPage <= b.totalPages ==> 0 <= r <= 100
  {
    if b.totalPages > 0 then
      if 0 <= b.currentPage <= b.totalPages then
        RoundedPercentBounds(b.currentPage, b.totalPages);
        RoundedPercent(b.currentPage, b.totalPages)
      else RoundedPercent(b.currentPage, b.totalPages)
    else 0
  }

  /** A position within the book gives a percentage in [0, 100]; a missing page count gives 0. */
  lemma ProgressPercentSpec(b: Book)
    ensures b.totalPages <= 0 ==> ProgressPercent(b) == 0
    ensures 0 <= b.currentPage <= b.totalPages && b.totalPages > 0 ==> 0 <= ProgressPercent(b) <= 100
    ensures b.totalPages > 0 ==>
      2 * b.totalPages * ProgressPercent(b) <= 200 * b.currentPage + b.totalPages < 2 * b.totalPages * (ProgressPercent(b) + 1)
  {
    if b.totalPages > 0 {
      RoundedPercentIsNearest(b.currentPage, b.totalPages);
      if 0 <= b.currentPage <= b.totalPages {
        RoundedPercentBounds(b.currentPage, b.totalPages);
      }
    }
  }

  datatype RecentItem = RecentItem(book: Book, percent: int)

  /** What the panel renders: a placeholder for an empty library, otherwise the list. */
  datatype RecentView = Placeholder | Items(items: seq<RecentItem>)

  function Render(books: seq<Book>, maxItems: int): RecentView
  {
    if |books| == 0 then Placeholder
    else Items(Map((b: Book) => RecentItem(b, ProgressPercent(b)), Shown(books, maxItems)))
  }

  /**
   * The placeholder shows exactly for an empty library; otherwise each row is
   * a shown book with its percentage. A `maxItems` of 0 on a non-empty
   * library lists no rows at all.
   */
  lemma RenderSpec(books: seq<Book>, maxItems: int)
    ensures Render(books, maxItems).Placeholder? <==> books == []
    ensures Render(books, maxItems).Items? ==>
      (|Render(books, maxItems).items| == |Shown(books, maxItems)|
      && forall k :: 0 <= k < |Shown(books, maxItems)| ==>
        Render(books, maxItems).items[k] == RecentItem(Shown(books, maxItems)[k], ProgressPercent(Shown(books, maxItems)[k])))
    ensures books != [] && maxItems == 0 ==> Render(books, maxItems) == Items([])
  {
    ShownSpec(books, maxItems);
  }
}
