/**
 * The reader's controller: its state variables, the guarded page navigation,
 * the clamped zoom, the bookmark toggle and when a render reports progress.
 *
 * Zoom is kept in integer tenths (10 is 1.0). Loading the document and
 * rendering a page are outside the model: their outcomes are parameters.
 */
module PdfReader {
  import opened Wrappers
  import opened Books

  const MinZoom: int := 5
  const MaxZoom: int := 30
  const InitialZoom: int := 10

  /** `book.currentPage || 1`: a page of 0 is falsy. Not clamped to the page count. */
  function InitialPage(b: Book): (p: int)
    ensures b.currentPage != 0 ==> p == b.currentPage
    ensures b.currentPage == 0 ==> p == 1
  {
    if b.currentPage != 0 then b.currentPage else 1
  }

  /** The page `goToPage(n)` leaves: `n` when it is a page of the document, otherwise the current one. */
  function PageAfter(current: int, totalPages: int, n: int): (r: int)
    ensures r == n || r == current
    ensures 1 <= current <= totalPages ==> 1 <= r <= totalPages
  {
    if 1 <= n <= totalPages then n else current
  }

  /** `Math.min(3, zoom + 0.1)` in tenths. */
  function ZoomedIn(zoom: int): int
  {
    if zoom + 1 < MaxZoom then zoom + 1 else MaxZoom
  }

  /** `Math.max(0.5, zoom - 0.1)` in tenths. */
  function ZoomedOut(zoom: int): int
  {
    if zoom - 1 > MinZoom then zoom - 1 else MinZoom
  }

  /** Navigation from a page of the document stays on a page of the document. */
  lemma NavigationKeepsRange(current: int, totalPages: int, n: int)
    requires 1 <= current <= totalPages
    ensures 1 <= PageAfter(current, totalPages, n) <= totalPages
    ensures PageAfter(current, totalPages, n) == n <==> 1 <= n <= totalPages || n == current
  {
  }

  /**
   * Prev and next move by one page when enabled. When a button is disabled,
   * its move would be refused by the guard anyway.
   */
  lemma PrevNextSteps(current: int, totalPages: int)
    ensures current > 1 && current <= totalPages ==> PageAfter(current, totalPages, current - 1) == current - 1
    ensures current < totalPages && current >= 1 ==> PageAfter(current, totalPages, current + 1) == current + 1
    ensures current <= 1 ==> PageAfter(current, totalPages, current - 1) == current
    ensures current >= totalPages ==> PageAfter(current, totalPages, current + 1) == current
  {
  }

  /** Next then prev comes back to the page where it started. */
  lemma PrevUndoesNext(current: int, totalPages: int)
    requires 1 <= current < totalPages
    ensures PageAfter(current + 1, totalPages, current) == current
    ensures PageAfter(PageAfter(current, totalPages, current + 1), totalPages, current) == current
  {
  }

  /**
   * Zoom stays within [0.5, 3]; inside the bounds one step in and one step out
   * cancel, and a step at a bound changes nothing.
   */
  lemma ZoomSpec(zoom: int)
    requires MinZoom <= zoom <= MaxZoom
    ensures MinZoom <= ZoomedIn(zoom) <= MaxZoom && MinZoom <= ZoomedOut(zoom) <= MaxZoom
    ensures zoom < MaxZoom ==> ZoomedIn(zoom) == zoom + 1 && ZoomedOut(ZoomedIn(zoom)) == zoom
    ensures zoom > MinZoom ==> ZoomedOut(zoom) == zoom - 1 && ZoomedIn(ZoomedOut(zoom)) == zoom
    ensures zoom == MaxZoom ==> ZoomedIn(zoom) == zoom
    ensures zoom == MinZoom ==> ZoomedOut(zoom) == zoom
  {
  }

  /** What `renderPage` passes to `onUpdateProgress`. */
  datatype Progress = Progress(bookId: string, page: int)

  class Reader {
    const bookId: string
    /** The page of the first render, which the load effect's `renderPage(currentPage)` still sees. */
    const openedOn: int
    var currentPage: int
    var totalPages: int
    var zoom: int
    var isLoading: bool
    var isBookmarked: bool
    /** `pdfDocumentRef.current` is set. */
    var hasDocument: bool

    constructor (book: Book)
      ensures bookId == book.id && openedOn == InitialPage(book)
      ensures currentPage == InitialPage(book) && totalPages == book.totalPages
      ensures zoom == InitialZoom && isLoading && isBookmarked == IsBookmarked(book) && !hasDocument
    {
      bookId := book.id;
      openedOn := InitialPage(book);
      currentPage := InitialPage(book);
      totalPages := book.totalPages;
      zoom := InitialZoom;
      isLoading := true;
      isBookmarked := IsBookmarked(book);
      hasDocument := false;
    }

    /** `disabled={currentPage <= 1}` on the previous-page button. */
    predicate PrevDisabled()
      reads this
    {
      currentPage <= 1
    }

    /** `disabled={currentPage >= totalPages}` on the next-page button. */
    predicate NextDisabled()
      reads this
    {
      currentPage >= totalPages
    }

    /** `disabled={zoom <= 0.5}` on the zoom-out button. */
    predicate ZoomOutDisabled()
      reads this
    {
      zoom <= MinZoom
    }

    /** `disabled={zoom >= 3}` on the zoom-in button. */
    predicate ZoomInDisabled()
      reads this
    {
      zoom >= MaxZoom
    }

    /** `goToPage`: accept a page of the document, ignore anything else. */
    method GoToPage(n: int)
      modifies this
      ensures currentPage == PageAfter(old(currentPage), totalPages, n)
      ensures totalPages == old(totalPages) && zoom == old(zoom) && isLoading == old(isLoading)
      ensures isBookmarked == old(isBookmarked) && hasDocument == old(hasDocument)
      ensures old(1 <= currentPage <= totalPages) ==> 1 <= currentPage <= totalPages
    {
      if n >= 1 && n <= totalPages {
        currentPage := n;
      }
    }

    /** The previous-page button: disabled on the first page, otherwise one page back. */
    method PrevPage()
      modifies this
      ensures currentPage == PageAfter(old(currentPage), totalPages, old(currentPage) - 1)
      ensures old(PrevDisabled()) ==> currentPage == old(currentPage)
      ensures !old(PrevDisabled()) && old(currentPage <= totalPages) ==> currentPage == old(currentPage) - 1
      ensures totalPages == old(totalPages) && zoom == old(zoom) && isLoading == old(isLoading)
      ensures isBookmarked == old(isBookmarked) && hasDocument == old(hasDocument)
      ensures old(1 <= currentPage <= totalPages) ==> 1 <= currentPage <= totalPages
    {
      GoToPage(currentPage - 1);
    }

    /** The next-page button: disabled on the last page, otherwise one page on. */
    method NextPage()
      modifies this
      ensures currentPage == PageAfter(old(currentPage), totalPages, old(currentPage) + 1)
      ensures old(NextDisabled()) ==> currentPage == old(currentPage)
      ensures !old(NextDisabled()) && old(currentPage >= 1) ==> currentPage == old(currentPage) + 1
      ensures totalPages == old(totalPages) && zoom == old(zoom) && isLoading == old(isLoading)
      ensures isBookmarked == old(isBookmarked) && hasDocument == old(hasDocument)
      ensures old(1 <= currentPage <= totalPages) ==> 1 <= currentPage <= totalPages
    {
      GoToPage(currentPage + 1);
    }

    /** `handlePageChange`: the slider reports its values and the first one is the page; no value changes nothing. */
    method SlideTo(values: seq<int>)
      modifies this
      ensures |values| > 0 ==> currentPage == PageAfter(old(currentPage), totalPages, values[0])
      ensures |values| == 0 ==> currentPage == old(currentPage)
      ensures totalPages == old(totalPages) && zoom == old(zoom) && isLoading == old(isLoading)
      ensures isBookmarked == old(isBookmarked) && hasDocument == old(hasDocument)
      ensures old(1 <= currentPage <= totalPages) ==> 1 <= currentPage <= totalPages
    {
      if |values| > 0 {
        GoToPage(values[0]);
      }
    }

    /** The zoom-in button: disabled at 3.0, otherwise one tenth more, never past 3.0. */
    method ZoomIn()
      modifies this
      ensures zoom == ZoomedIn(old(zoom))
      ensures old(MinZoom <= zoom <= MaxZoom) ==> MinZoom <= zoom <= MaxZoom
      ensures old(ZoomInDisabled()) && old(zoom <= MaxZoom) ==> zoom == old(zoom)
      ensures !old(ZoomInDisabled()) ==> zoom == old(zoom) + 1
      ensures currentPage == old(currentPage) && totalPages == old(totalPages) && isLoading == old(isLoading)
      ensures isBookmarked == old(isBookmarked) && hasDocument == old(hasDocument)
    {
      zoom := ZoomedIn(zoom);
    }

    /** The zoom-out button: disabled at 0.5, otherwise one tenth less, never below 0.5. */
    method ZoomOut()
      modifies this
      ensures zoom == ZoomedOut(old(zoom))
      ensures old(MinZoom <= zoom <= MaxZoom) ==> MinZoom <= zoom <= MaxZoom
      ensures old(ZoomOutDisabled()) && old(zoom >= MinZoom) ==> zoom == old(zoom)
      ensures !old(ZoomOutDisabled()) ==> zoom == old(zoom) - 1
      ensures currentPage == old(currentPage) && totalPages == old(totalPages) && isLoading == old(isLoading)
      ensures isBookmarked == old(isBookmarked) && hasDocument == old(hasDocument)
    {
      zoom := ZoomedOut(zoom);
    }

    /** `handleBookmarkToggle`: flip the local flag and report the book's id once. */
    method ToggleBookmark() returns (reported: string)
      modifies this
      ensures isBookmarked == !old(isBookmarked) && reported == bookId
      ensures currentPage == old(currentPage) && totalPages == old(totalPages) && zoom == old(zoom)
      ensures isLoading == old(isLoading) && hasDocument == old(hasDocument)
    {
      isBookmarked := !isBookmarked;
      reported := bookId;
    }

    /**
     * `renderPage(pageNumber)`: without a document or a canvas nothing happens;
     * otherwise the page is drawn and `isLoading` ends false, and progress is
     * reported only when drawing succeeded.
     */
    method RenderPage(pageNumber: int, canvasReady: bool, succeeded: bool) returns (report: Option<Progress>)
      modifies this
      ensures report.Some? <==> old(hasDocument) && canvasReady && succeeded
      ensures report.Some? ==> report.value == Progress(bookId, pageNumber)
      ensures isLoading == if old(hasDocument) && canvasReady then false else old(isLoading)
      ensures currentPage == old(currentPage) && totalPages == old(totalPages) && zoom == old(zoom)
      ensures isBookmarked == old(isBookmarked) && hasDocument == old(hasDocument)
    {
      report := None;
      if !hasDocument || !canvasReady {
        return;
      }
      isLoading := true;
      if succeeded {
        report := Some(Progress(bookId, pageNumber));
        isLoading := false;
      } else {
        isLoading := false;
      }
    }

    /**
     * `loadPdf`: set the loading flag; on success keep the document, take its
     * page count and render the page the reader opened on. The effect runs
     * once per file, so its `renderPage(currentPage)` is the first render's:
     * a page turned while the document loads is not the page drawn and
     * reported. A failed load leaves the flag set.
     */
    method LoadDocument(numPages: Option<int>, canvasReady: bool, renderSucceeded: bool)
      returns (report: Option<Progress>)
      modifies this
      ensures numPages.None? ==> isLoading && hasDocument == old(hasDocument) && totalPages == old(totalPages)
      ensures numPages.None? ==> report.None?
      ensures numPages.Some? ==> hasDocument && totalPages == numPages.value
      ensures numPages.Some? ==> (report.Some? <==> canvasReady && renderSucceeded)
      ensures numPages.Some? ==> isLoading == !canvasReady
      ensures report.Some? ==> report.value == Progress(bookId, openedOn)
      ensures currentPage == old(currentPage) && zoom == old(zoom) && isBookmarked == old(isBookmarked)
    {
      isLoading := true;
      report := None;
      if numPages.None? {
        return;
      }
      hasDocument := true;
      totalPages := numPages.value;
      report := RenderPage(openedOn, canvasReady, renderSucceeded);
    }
  }

  /**
   * The next page is turned while the document loads (the footer is outside
   * the loading overlay): the load draws and reports the page the reader
   * opened on, while the reader shows the page after it.
   */
  method TurnPageWhileLoading(b: Book, numPages: int) returns (report: Option<Progress>, shown: int)
    requires 1 <= b.currentPage < b.totalPages
    ensures report == Some(Progress(b.id, b.currentPage))
    ensures shown == b.currentPage + 1 && shown != report.value.page
  {
    var reader := new Reader(b);
    reader.NextPage();
    report := reader.LoadDocument(Some(numPages), true, true);
    shown := reader.currentPage;
  }
}
