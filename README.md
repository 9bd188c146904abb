# Reading hub: a Dafny model of the PDF library's core

The application is a browser-side personal PDF library. It keeps every book
record in one `localStorage` slot as a JSON envelope `{ books, lastUpdated }`.
Four pages (Library, Index, Search and Bookmarks) each keep a copy of the list.
They mutate that copy in their handlers and persist the whole list after
every change. Several components derive views from the list:

- the grid, with its search box and sort options;
- the home-page dashboard counters;
- the recent-books panel;
- each book's card.

The uploader turns picked files into book records. The reader holds page,
zoom and bookmark state.

This project models:

- **Storage**: the storage slot as the class `Storage.BookStore`, with `saveBooks`,
  `loadBooks`, `updateBook` and `deleteBook`. Each write to `localStorage` can
  succeed, exceed the quota or fail otherwise, and is a parameter. The JSON
  round trip of a record is modelled exactly: an `ArrayBuffer` comes back as `{}`.
  The model also covers the quota retry without files, and a save that throws.
- **Catalog**: the list mutators every page repeats (the bookmark flip and the
  progress update), as pure functions.
- **LibraryPage, IndexPage, SearchPage, BookmarksPage**: the pages as classes
  that hold their `books` / `allBooks`, `currentBook` and `query`. Their handlers
  are methods that change the page and the store. When `saveBooks` throws, the
  rest of the handler is skipped, as it is in the code.
- **BookGrid, DashboardStats, RecentBooks, BookCard**: the views, as pure
  functions, with a stable insertion sort standing in for `Array.prototype.sort`.
- **BookUploader**: `processFiles` as a loop over the picked files. Reading a
  file and extracting its metadata are outside the model; their outcome and
  the clock reading are part of each picked file.
- **PdfReader**: the reader's state as a class, with navigation, zoom,
  bookmark and when rendering reports progress.
- **Helper modules**: `Wrappers` (Option), `Seqs` (filter, map, count),
  `Text` (JavaScript `trim`, ASCII `toLowerCase`, `includes`, `split(" ")`,
  `join(" ")`, the first-occurrence `replace`, decimal `toString`) and
  `Numeric` (`Math.round` of a percentage, computed exactly).

Dates are integer timestamps. The reader's zoom is kept in integer tenths
(10 is 100%).

## Model

| member | source | states |
|---|---|---|
| Storage.BookStore.SaveBooks | src/lib/storage.ts:11-40 | The slot becomes the JSON image of the list when the first write succeeds. On a quota error, a successful retry stores the list without files. Any other failure keeps the old slot. The method throws exactly when the quota retry fails. |
| Storage.BookStore.LoadBooks | src/lib/storage.ts:42-53 | Returns the stored envelope's books. A missing, empty or unparsable slot gives `[]`. |
| Storage.BookStore.UpdateBook | src/lib/storage.ts:55-66 | Returns the loaded list with the patch merged into the matching records, and stores it through `saveBooks`. |
| Storage.BookStore.DeleteBook | src/lib/storage.ts:68-74 | Returns the loaded list without the records carrying the id, and stores it through `saveBooks`. |
| Storage.LoadWithoutEnvelope | src/lib/storage.ts:44-52 | Every slot without an envelope loads as the empty library. |
| Storage.SaveThenLoad | src/lib/storage.ts:13-20 | After a successful write, loading gives the same records in the same order, except that `file` bytes come back as `{}`. |
| Storage.QuotaRetryDropsOnlyFiles | src/lib/storage.ts:26-37 | After a quota error and a successful retry, the slot holds every record in order, without its `file`. |
| Storage.FailedSaveKeepsSlot | src/lib/storage.ts:21-38 | A swallowed failure, or a retry that throws, leaves the previous slot contents. |
| Storage.ResaveIsStable | src/lib/storage.ts:13-20 | Saving what was just loaded and loading again gives the same list. |
| Storage.UpdateByIdSpec | src/lib/storage.ts:57-62 | Length and order are kept. Other records are untouched. Matching records are `Merge(book, updates)`. |
| Storage.MergeKeepsAbsentFields | src/lib/storage.ts:59 | Every field the patch leaves out keeps the book's value, so an empty patch changes nothing. |
| Storage.MergeCombine | src/lib/storage.ts:59 | Spreading two patches in turn equals spreading their combination. |
| Storage.UpdateByIdIdempotent | src/lib/storage.ts:55-66 | Repeating the same update changes nothing further. |
| Storage.DeleteByIdSpec | src/lib/storage.ts:70 | No record with the id survives. Every other record is kept, as often as it occurs and in order. An absent id leaves the list as it was. |
| Storage.Merge | src/lib/storage.ts:59 | A patch without an id keeps the record's id, and a patch without a bookmark flag keeps the flag. |
| Storage.SavedTwice | src/lib/storage.ts:11-40 | With the same write outcomes, a second save leaves what it would leave alone: only the last list saved matters. |
| Catalog.MapByIdAt | src/pages/Library.tsx:30-35 | Position by position, only records with the id are changed, and they are changed by the given change. |
| Catalog.MapByIdAbsent | src/pages/Library.tsx:30-35 | An id that no record carries leaves the list unchanged. |
| Catalog.Toggled | src/pages/Library.tsx:32 | The flag's truthiness is negated, the flag becomes a boolean, and no other field changes. |
| Catalog.WithProgress | src/pages/Library.tsx:50-54 | Sets the page and the time, and no other field changes. |
| Catalog.SyncOpenBook | src/pages/Library.tsx:39-44 | The open book is changed iff it carries the id. A closed reader stays closed. |
| Catalog.ToggleBookmarkSpec | src/pages/Library.tsx:29-35 | Length and order are kept. Only records with the id are changed: their flag is negated and their other fields are kept. |
| Catalog.SetProgressSpec | src/pages/Library.tsx:47-57 | Length and order are kept. Only records with the id get the new page and time. |
| Catalog.ToggledTwice | src/pages/Library.tsx:32 | A double toggle restores a boolean flag and turns an absent flag into `false`. |
| Catalog.ToggleBookmarkTwice | src/pages/Library.tsx:29-37 | Toggling the same id twice restores the list when the matching records have boolean flags. |
| Catalog.MapByIdKeepsIds | src/pages/Library.tsx:30-35 | A change that keeps ids keeps the id list. |
| Catalog.MutatorsKeepIds | src/pages/Library.tsx:29-59 | The toggle and the progress update never add, remove or reorder records. |
| Catalog.SetProgressKeepsFlags | src/pages/Library.tsx:47-57 | A progress update keeps every bookmark flag. |
| Catalog.FilterMapByIdCommute | src/pages/Bookmarks.tsx:54-78 | A change that never alters a filter's verdict commutes with that filter. |
| Catalog.OnlyLastAddedSurvives | src/components/BookUploader.tsx:45-90 | When every call starts from the captured list, a non-empty batch leaves that list plus the batch's last book only. |
| Catalog.TwoFileBatchKeepsOnlySecond | src/pages/Library.tsx:19-23 | A batch of two new books leaves the captured list plus the second; the first is lost. |
| Catalog.StaleProgressLosesToggle | src/pages/Library.tsx:47-57 | A progress update computed from the list before a toggle gives each toggled record its old flag back, so the toggle is lost. Computed from the list the toggle left, it keeps the toggle. |
| LibraryPage.Library.constructor | src/pages/Library.tsx:10-17 | The page starts with the stored list and no open book. |
| LibraryPage.Library.HandleBookSelect | src/pages/Library.tsx:25-27 | Opens the given book; the list is unchanged. |
| LibraryPage.Library.CloseReader | src/pages/Library.tsx:74 | Closes the reader; the list is unchanged. |
| LibraryPage.Library.HandleBookAdded | src/pages/Library.tsx:19-23 | Appends the book and saves the list. After a successful write, the store holds the same records. |
| LibraryPage.Library.UploadBatchAsWritten | src/pages/Library.tsx:19-23 | As the code behaves with the uploader's loop (src/components/BookUploader.tsx:45-90): the list becomes the old list plus the last book of the batch, and the slot is what saving that list leaves. The open book is unchanged. |
| LibraryPage.Library.UploadBatch | src/pages/Library.tsx:19-23 | As intended: the whole batch is appended in order, the slot is what saving the whole list leaves, and the open book is unchanged. |
| LibraryPage.Library.ToggleDuringRenderAsWritten | src/pages/Library.tsx:29-67 | A bookmark toggle, then a progress report through the handler of the render that started before it. The list, the slot and the open book end as if only the progress update had happened: the toggle is lost. |
| LibraryPage.Library.ToggleDuringRender | src/pages/Library.tsx:29-67 | As intended: the progress update applies to the list and open book the toggle left, and the slot holds that list. |
| LibraryPage.Library.HandleBookmarkToggle | src/pages/Library.tsx:29-45 | Toggles the list and saves it. The open book is updated unless the save threw. The store agrees with the list after a successful write. |
| LibraryPage.Library.HandleUpdateProgress | src/pages/Library.tsx:47-68 | Sets progress in the list and saves it. The open book is updated unless the save threw. |
| IndexPage.RecentPanelSize | src/pages/Index.tsx:96-100 | The home page shows min(10, number of books) recent books. |
| IndexPage.WithIdAfterToggle | src/pages/Index.tsx:32-41 | The records with the id after the toggle are the toggled records with the id before it. |
| IndexPage.ToggleToastsSpec | src/pages/Index.tsx:33-38 | There is one toast per record with the id. It says "Book bookmarked" exactly when that record is bookmarked after the toggle. |
| IndexPage.AbsentIdRaisesNoToast | src/pages/Index.tsx:32-41 | An id that no record carries raises no toast. |
| IndexPage.ToggleToasts | src/pages/Index.tsx:32-41 | One toast per record with the id, each either "Book bookmarked" or "Bookmark removed". |
| IndexPage.Index.constructor | src/pages/Index.tsx:12-19 | The page starts with the stored list and no open book. |
| IndexPage.Index.HandleBookSelect | src/pages/Index.tsx:27-29 | Opens the given book; the list is unchanged. |
| IndexPage.Index.CloseReader | src/pages/Index.tsx:80 | Closes the reader; the list is unchanged. |
| IndexPage.Index.HandleBookAdded | src/pages/Index.tsx:21-25 | Appends the book and saves the list. |
| IndexPage.Index.UploadBatchAsWritten | src/pages/Index.tsx:21-25 | As the code behaves with the uploader's loop: the list becomes the old list plus the last book of the batch, and the slot is what saving that list leaves. |
| IndexPage.Index.UploadBatch | src/pages/Index.tsx:21-25 | As intended: the whole batch is appended in order, and the slot is what saving the whole list leaves. |
| IndexPage.Index.HandleBookmarkToggle | src/pages/Index.tsx:31-51 | Returns the toasts raised during the map, even when the save throws. Toggles and saves the list, and updates the open book unless the save threw. |
| IndexPage.Index.HandleUpdateProgress | src/pages/Index.tsx:53-74 | Sets progress in the list and saves it. The open book is updated unless the save threw. |
| SearchPage.SearchFields | src/pages/Search.tsx:31-37 | The fields are title, author, the tags, the categories and language, in that order. |
| SearchPage.SearchResults | src/pages/Search.tsx:22-43 | The results are books of the library, never more than it holds. |
| SearchPage.MutatorsCommuteWithSearch | src/pages/Search.tsx:22-88 | Toggling or setting progress and then searching equals searching and then applying the same change: no searched field depends on the flag or the page. |
| SearchPage.BlankQueryFindsNothing | src/pages/Search.tsx:23-26 | A query that trims to nothing gives no results. |
| SearchPage.SearchResultsSpec | src/pages/Search.tsx:28-42 | Otherwise a book is found iff every term of the lowercased, space-split query occurs in its lowercased joined text. Results keep library order and each record's number of occurrences. |
| SearchPage.TermMatchesOneField | src/pages/Search.tsx:28-39 | A term occurs in the joined text iff it occurs in one lowercased field. Terms hold no space, so they never straddle two fields. |
| SearchPage.DoubledSpaceChangesNothing | src/pages/Search.tsx:28-39 | A doubled space adds an empty term, which every book matches, so it changes no result. |
| SearchPage.View | src/pages/Search.tsx:116-137 | A found view holds non-empty results, every one from the library. |
| SearchPage.ViewSpec | src/pages/Search.tsx:116-137 | The prompt shows iff the query is blank, and an empty library finds nothing. The found list is exactly the non-empty results. The grid shows all of them, as often as they occur, newest added first rather than in library order. |
| SearchPage.Search.constructor | src/pages/Search.tsx:11-20 | The page starts with every stored book, an empty query and no open book. |
| SearchPage.Search.SetQuery | src/pages/Search.tsx:108-113 | Sets the query; the books and the open book are unchanged. |
| SearchPage.Search.HandleBookSelect | src/pages/Search.tsx:45-47 | Opens the given book. |
| SearchPage.Search.CloseReader | src/pages/Search.tsx:93 | Closes the reader. |
| SearchPage.Search.HandleBookmarkToggle | src/pages/Search.tsx:22-65 | Toggles `allBooks` and saves it, and updates the open book unless the save threw. The query is unchanged. The recomputed results are the old results with the same toggle. |
| SearchPage.Search.HandleUpdateProgress | src/pages/Search.tsx:22-88 | Sets progress in `allBooks` and saves it, and updates the open book unless the save threw. The recomputed results are the old results with the same update. |
| BookmarksPage.BookmarkedViewSpec | src/pages/Bookmarks.tsx:15 | The view holds exactly the bookmarked books, each as often as it is stored, in stored order. |
| BookmarksPage.BookmarkedView | src/pages/Bookmarks.tsx:15 | The view is a sublist of the stored list. |
| BookmarksPage.ToggleUpdatesView | src/pages/Bookmarks.tsx:25-36 | After a toggle, books with other ids are in the view iff they were before. A toggled record is in the view iff it was not bookmarked. |
| BookmarksPage.ProgressCommutesWithView | src/pages/Bookmarks.tsx:54-78 | Updating the full list and then filtering equals updating the filtered view. |
| BookmarksPage.Bookmarks.constructor | src/pages/Bookmarks.tsx:9-17 | The page starts with the bookmarked stored books and no open book. |
| BookmarksPage.Bookmarks.HandleBookSelect | src/pages/Bookmarks.tsx:19-21 | Opens the given book. |
| BookmarksPage.Bookmarks.CloseReader | src/pages/Bookmarks.tsx:93 | Closes the reader. |
| BookmarksPage.Bookmarks.HandleBookmarkToggle | src/pages/Bookmarks.tsx:23-50 | Reloads, toggles and saves the full list, then shows its bookmarked books. If the open book was bookmarked it is closed, otherwise it is marked bookmarked. A throwing save skips everything after it. |
| BookmarksPage.Bookmarks.HandleUpdateProgress | src/pages/Bookmarks.tsx:52-87 | Reloads, updates and saves the full list, then applies the same update to the view (keeping its ids) and to the open book. |
| BookGrid.BlankTermKeepsAll | src/components/BookGrid.tsx:25-28 | A blank search term shows every book. |
| BookGrid.FilterBooksSpec | src/components/BookGrid.tsx:30-37 | A book is shown iff its lowercased title, author, a tag or a category contains the lowercased untrimmed term. Shown books keep their order and their number of occurrences. |
| BookGrid.FilterBooks | src/components/BookGrid.tsx:25-38 | The grid shows only books of the library, never more than it holds. |
| BookGrid.LexLeTotal | src/components/BookGrid.tsx:44-46 | Any two strings are ordered one way or the other. |
| BookGrid.LexLeTransitive | src/components/BookGrid.tsx:44-46 | The string order is transitive. |
| BookGrid.PrecedesTotal | src/components/BookGrid.tsx:41-53 | The comparator orders any two books, for each sort option. |
| BookGrid.PrecedesTransitive | src/components/BookGrid.tsx:41-53 | The comparator is transitive, for each sort option. |
| BookGrid.InsertSpec | src/components/BookGrid.tsx:41-53 | Inserting into a sorted list keeps it sorted and adds exactly the element. |
| BookGrid.SortBooksSpec | src/components/BookGrid.tsx:40-54 | The sorted copy is a permutation of the input, ordered by the comparator. |
| BookGrid.SortBooks | src/components/BookGrid.tsx:40-54 | The sorted copy holds the same records as the input, each as often. |
| BookGrid.InsertPermutes | src/components/BookGrid.tsx:40-54 | Inserting adds exactly the one record. |
| BookGrid.InsertTies | src/components/BookGrid.tsx:40-54 | An inserted record goes ahead of every record it ties with under the comparator. |
| BookGrid.SortBooksStable | src/components/BookGrid.tsx:40-54 | The sort is stable: records the comparator ties come out in their input order. |
| BookGrid.SortedBooksSpec | src/components/BookGrid.tsx:40-54 | The grid shows a permutation of the filtered books. The date sorts put the newest first; title and author are ascending. |
| BookGrid.RenderSpec | src/components/BookGrid.tsx:56-102 | The empty state shows iff the library is empty. A blank term on a non-empty library always shows cards, and the cards are the sorted matches. |
| DashboardStats.ComputeStats | src/components/DashboardStats.tsx:18-47 | The total is the library size, and every counter is at most the total. |
| DashboardStats.PagesReadNonNegative | src/components/DashboardStats.tsx:27-29 | The pages-read total is non-negative when every book is at page 1 or later. |
| DashboardStats.PagesReadBelowTotal | src/components/DashboardStats.tsx:27-29 | The total is at most what it would be with every book on its last page. |
| DashboardStats.CompletionRateSpec | src/components/DashboardStats.tsx:49-52 | The rate is in [0, 100]. It is 0 for an empty library or no completed book. It is 100 iff at least 99.5% of the books are completed. |
| DashboardStats.CompletionRate | src/components/DashboardStats.tsx:49-52 | 0 for an empty library, and within [0, 100] while completed books are at most the total. |
| DashboardStats.AllCompletedIsHundred | src/components/DashboardStats.tsx:21-23 | A library whose every book is completed has rate 100. |
| DashboardStats.CountMapById | src/components/DashboardStats.tsx:20-24 | A change that keeps a test's outcome keeps the count of books that pass it. |
| DashboardStats.ProgressKeepsBookmarkedCount | src/components/DashboardStats.tsx:24 | A progress update leaves the bookmarked counter as it was. |
| DashboardStats.ToggleMovesBookmarkedCount | src/components/DashboardStats.tsx:24 | A toggle subtracts the bookmarked records with the id from the counter and adds the unbookmarked ones. |
| RecentBooks.SliceEnd | src/components/RecentBooks.tsx:20 | `slice(0, end)` ends at `end` clamped to the length. A negative end counts from the back. |
| RecentBooks.ShownSpec | src/components/RecentBooks.tsx:17-20 | The panel shows min(length, maxItems) books, newest first. Shown plus omitted is exactly the input. Every shown book was opened no earlier than any omitted one. |
| RecentBooks.Shown | src/components/RecentBooks.tsx:18-20 | At most the library size, and at most `maxItems` when that is non-negative. |
| RecentBooks.DefaultPanelSize | src/components/RecentBooks.tsx:15-20 | Without `maxItems` the panel shows min(5, number of books). |
| RecentBooks.ShownComeFromInput | src/components/RecentBooks.tsx:18-20 | Every shown book comes from the input. |
| RecentBooks.ProgressPercentSpec | src/components/RecentBooks.tsx:45-48 | The percent is 0 without a positive page count. Otherwise it is the nearest integer to the exact percentage, and it lies in [0, 100] for a position within the book. |
| RecentBooks.ProgressPercent | src/components/RecentBooks.tsx:45-48 | 0 without a positive page count, and within [0, 100] for a position within the book. |
| RecentBooks.RenderSpec | src/components/RecentBooks.tsx:22-77 | The placeholder shows iff the library is empty. Otherwise each row is a shown book with its percent. |
| BookCard.CardIndicatorsExclusive | src/components/BookCard.tsx:31-48 | The bar and the badge never show together. Either implies the progress row. The icon shows iff the book is bookmarked. |
| BookCard.Percentage | src/components/BookCard.tsx:15 | 0 for a page count of 0, and within [0, 100] for a position within the book. |
| BookCard.Card | src/components/BookCard.tsx:31-61 | The bar or the badge implies the progress row, and the icon shows iff the book is bookmarked. |
| BookCard.CardThresholds | src/components/BookCard.tsx:15-61 | The badge shows iff the position reaches 99.5%. The bar shows iff it is in [0.5%, 99.5%). The row shows iff it is at least 0.5%. |
| BookCard.NoPageCountShowsNoProgress | src/components/BookCard.tsx:15 | Without a page count the card shows no progress at all. |
| BookCard.CompletedShowsBadge | src/components/BookCard.tsx:15-43 | A book the dashboard counts as completed shows the badge. |
| BookCard.BadgeBeforeLastPage | src/components/BookCard.tsx:39-43 | On page 199 of 200 the badge already shows, while the dashboard does not count the book as completed. |
| BookUploader.OrString | src/components/BookUploader.tsx:66-78 | `value \|\| fallback` on a string: an absent or empty value gives the fallback. |
| BookUploader.OrNumber | src/components/BookUploader.tsx:74 | `value \|\| 0` on a number: an absent or zero value gives the fallback. |
| BookUploader.NewBook | src/components/BookUploader.tsx:64-79 | The record has the id `now` followed by the index, the file's name, size and bytes, page 1, no tags or categories, and, for the title, author, cover, page count and language, the extracted value when it is present and not empty (not 0 for the page count), otherwise the default. |
| BookUploader.AcceptedOrigins | src/components/BookUploader.tsx:48-87 | At most one book per file. Each reported book is the book of the file at its index. |
| BookUploader.AcceptedInFileOrder | src/components/BookUploader.tsx:48-87 | Books are reported in increasing file order, and every PDF that was read reports its book. |
| BookUploader.RejectedFilesReportNothing | src/components/BookUploader.tsx:51-54 | A non-PDF file, or a file whose read failed, reports nothing. |
| BookUploader.BookFor | src/components/BookUploader.tsx:48-86 | A file reports a book iff it is a PDF whose read and metadata extraction succeeded. |
| BookUploader.TitleFromFileName | src/components/BookUploader.tsx:66 | Without a metadata title, `name.pdf` gets the title `name` when `name` holds no ".pdf". |
| BookUploader.FirstPdfIsRemoved | src/components/BookUploader.tsx:66 | Only the first ".pdf" is removed: `a.pdf.b.pdf` gets the title `a.b.pdf`. |
| BookUploader.IdsDifferAtSameInstant | src/components/BookUploader.tsx:65 | Two files of a batch read at the same instant get different ids. |
| BookUploader.IdsCollideAcrossInstants | src/components/BookUploader.tsx:65 | Files read at different instants can get the same id: instant 1 with index 12 and instant 11 with index 2 both give "112". |
| BookUploader.Uploader.constructor | src/components/BookUploader.tsx:16 | The uploader starts not processing, with nothing reported. |
| BookUploader.Uploader.ProcessFiles | src/components/BookUploader.tsx:45-90 | The reported books are the accepted books of the batch, in file order, and the processing flag ends cleared. |
| PdfReader.InitialPage | src/components/PdfReader.tsx:34 | The reader opens on the stored page, or on page 1 when that is 0. |
| PdfReader.PageAfter | src/components/PdfReader.tsx:104-108 | The page after `goToPage` is the target or the current page, and it stays in the document when the current page is in it. |
| PdfReader.NavigationKeepsRange | src/components/PdfReader.tsx:104-108 | From a page of the document, navigation stays in the document. The target is taken iff it is a page. |
| PdfReader.PrevNextSteps | src/components/PdfReader.tsx:204-225 | Enabled buttons move by one page. A disabled button's move would be refused anyway. |
| PdfReader.PrevUndoesNext | src/components/PdfReader.tsx:204-225 | Next then previous comes back to the start. |
| PdfReader.ZoomSpec | src/components/PdfReader.tsx:156-168 | Zoom stays in [0.5, 3]. Inside the bounds, one step in and one step out cancel. A step at a bound changes nothing. |
| PdfReader.Reader.constructor | src/components/PdfReader.tsx:34-40 | Starting state: the initial page, the stored page count, zoom 1, loading, the stored bookmark flag and no document. The page it opened on is remembered for the load. |
| PdfReader.Reader.GoToPage | src/components/PdfReader.tsx:104-108 | Accepts a page of the document and ignores anything else. Nothing else changes. |
| PdfReader.Reader.PrevPage | src/components/PdfReader.tsx:201-208 | `goToPage(currentPage - 1)`. When the button is disabled (page 1 or before) nothing changes; otherwise a page of the document steps back by one. |
| PdfReader.Reader.NextPage | src/components/PdfReader.tsx:221-228 | `goToPage(currentPage + 1)`. When the button is disabled (last page or beyond) nothing changes; otherwise a page of the document steps forward by one. |
| PdfReader.Reader.SlideTo | src/components/PdfReader.tsx:110-112 | Goes to the slider's first value. |
| PdfReader.Reader.ZoomIn | src/components/PdfReader.tsx:164-170 | Zoom becomes min(3, zoom + 0.1) and stays in [0.5, 3]. When the button is disabled (zoom at 3) nothing changes; otherwise zoom grows by 0.1. |
| PdfReader.Reader.ZoomOut | src/components/PdfReader.tsx:153-160 | Zoom becomes max(0.5, zoom - 0.1) and stays in [0.5, 3]. When the button is disabled (zoom at 0.5) nothing changes; otherwise zoom shrinks by 0.1. |
| PdfReader.Reader.ToggleBookmark | src/components/PdfReader.tsx:114-117 | Flips the local flag and reports the book's id. |
| PdfReader.Reader.RenderPage | src/components/PdfReader.tsx:82-102 | Without a document or a canvas, nothing happens. Otherwise loading ends, and progress is reported iff the render succeeded. |
| PdfReader.Reader.LoadDocument | src/components/PdfReader.tsx:42-76 | A failed load leaves the reader loading. A successful load keeps the document, takes its page count, and draws and reports the page the reader opened on, whatever page it shows by then; the current page and zoom do not change. |
| PdfReader.TurnPageWhileLoading | src/components/PdfReader.tsx:42-76 | A page turned while the document loads: the load reports the opened page, while the reader shows the next one. |
| Text.TrimEmptyIffBlank | src/pages/Search.tsx:23 | `trim()` gives the empty string iff every character is JavaScript whitespace. |
| Text.JoinSplit | src/pages/Search.tsx:28 | Joining the space-split pieces with spaces gives back the string. |
| Text.SplitAtSpace | src/pages/Search.tsx:28 | Splitting at a space concatenates the pieces of both sides. |
| Text.ContainsJoin | src/pages/Search.tsx:37-39 | A space-free term occurs in a space-joined text iff it occurs in one of the parts. |
| Text.IndexOf | src/components/BookUploader.tsx:66 | There is no match iff the pattern does not occur. |
| Text.ReplaceFirstSpec | src/components/BookUploader.tsx:66 | Without a match the string is unchanged; otherwise the first match is replaced. |
| Text.DecimalRoundTrip | src/components/BookUploader.tsx:65 | The decimal digits of a number read back as that number. |
| Numeric.RoundedPercentIsNearest | src/components/BookCard.tsx:15 | `Math.round(part / whole * 100)` is within one half of the exact percentage. |
| Numeric.RoundedPercentBounds | src/components/BookCard.tsx:15 | A part between 0 and the whole gives a percentage in [0, 100]. |
| Numeric.RoundedPercentIsHundred | src/components/BookCard.tsx:39 | The percentage is 100 iff the part reaches 99.5% of the whole. |
| Numeric.RoundedPercentIsZero | src/components/BookCard.tsx:31 | The percentage is 0 iff the part is below 0.5% of the whole. |
| Numeric.RoundedPercentOfWhole | src/components/DashboardStats.tsx:51 | The whole is 100% of itself. |

## Left out

- `Storage.BookStore.SaveBooks`: the error log is not modelled. The text stored is an envelope value rather than a JSON string, so JSON other than the envelope's shape is folded into "does not parse".
- `lastUpdated` is an integer instant taken as a parameter; ISO-8601 formatting is not modelled.
- `Storage.Merge`: a patch field that is present but `undefined` is not distinguished from an absent one.
- Every `new Date()` of a handler is one `now` parameter; two clock reads in the same handler may differ in the code.
- The dashboard's `sevenDaysAgo` is a parameter. The calendar arithmetic behind it is not modelled.
- `toLowerCase` is ASCII-only, and `localeCompare` is code-point lexicographic order. Unicode case mapping and locale collation are not modelled.
- `Text.Split` / `Text.Contains`: strings are sequences of characters. UTF-16 surrogate pairs count as one character.
- Percentages and zoom are exact rationals and tenths. Floating-point rounding and the drift of repeated `zoom ± 0.1` are not modelled.
- React scheduling is not modelled: each handler is one atomic step, and state setters take effect immediately. The derived `filteredBooks` and `sortedBooks` are functions of the state. Stale closures are modelled where they were found to change the outcome: a batch upload (`UploadBatchAsWritten`), a bookmark toggle made while a page renders (`ToggleDuringRenderAsWritten`), and the load's render of the page the reader opened on (`LoadDocument`). Other interleavings of a render with a handler are not modelled.
- A progress report uses the handler, list and open book of the render that started it. A toggle made during that render is therefore lost on the Index and Search pages as well (src/pages/Index.tsx:53-74, src/pages/Search.tsx:67-79). Only the Library page's case is modelled as a method.
- `LibraryPage.Library.UploadBatchAsWritten`, `LibraryPage.Library.UploadBatch` and their `IndexPage` counterparts use one clock reading and one pair of write outcomes for every save of the batch; the per-book success toasts are not modelled.
- The reader's render effect (re-render on page, zoom or theme change) is not modelled as automatic; `RenderPage` is a separate call.
- Async loading, the `isMounted` guard, `destroy()` on unmount, and the pdf.js worker and canvas drawing are outside the model. Their outcomes are parameters of `LoadDocument` and `RenderPage`.
- `BookUploader`: `FileReader` and `extractPdfMetadata` (src/lib/pdfUtils.ts) are not part of this model. Their outcome is part of each picked file.
- `BookUploader`: the drag-and-drop handlers, the `files.length > 0` guard, the error toasts and the success toasts are left out.
- `BookUploader.IdsDifferAtSameInstant`: ids are proved distinct only for files read at the same instant. Files read at different instants can collide; `IdsCollideAcrossInstants` gives an example.
- Toasts are modelled only for the home page's bookmark toggle. Other toasts and `console` output are left out.
- Layout, Sidebar, ThemeSwitcher, Settings and the theme are presentation only and are left out.

## Findings

| source | as written | input that shows it | evidently intended | confidence | as-written member | corrected member |
|---|---|---|---|---|---|---|
| src/components/BookUploader.tsx:45-90 | `processFiles` awaits inside its loop and calls the `onBookAdded` it captured when the batch started; `handleBookAdded` (src/pages/Library.tsx:19-23, src/pages/Index.tsx:21-25) spreads the `books` of that render, so every call starts from the list as it was before the upload | a batch of two new PDFs `b1`, `b2`: the list and the slot end with the old books plus `b2` only | every book of the batch is appended and saved | not executed | `Catalog.TwoFileBatchKeepsOnlySecond`, `LibraryPage.Library.UploadBatchAsWritten` | `LibraryPage.Library.UploadBatch` |
| src/components/PdfReader.tsx:82-96 | `renderPage` awaits the drawing and then calls the `onUpdateProgress` of the render that started it; `handleUpdateProgress` (src/pages/Library.tsx:47-67) maps that render's `books` and `currentBook` | the bookmark of the open book is toggled (src/components/PdfReader.tsx:114-117) while a page is drawn: the list, the slot and the open book end with the old flag | the toggle survives the progress report | not executed | `Catalog.StaleProgressLosesToggle`, `LibraryPage.Library.ToggleDuringRenderAsWritten` | `LibraryPage.Library.ToggleDuringRender` |
