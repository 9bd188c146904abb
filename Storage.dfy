/**
 * The persistent book store: one `localStorage` slot holding the JSON envelope
 * `{ books, lastUpdated }`. The outcome of each `localStorage.setItem` call is a
 * parameter, since the browser decides it; the clock reading for
 * `lastUpdated` is a parameter too.
 */
module Storage {
  import opened Wrappers
  import opened Books
  import opened Seqs
  import opened Catalog

  /** The `StorageData` envelope, as `JSON.parse` gives it back. */
  datatype Envelope = Envelope(books: seq<Book>, lastUpdated: int)

  /**
   * What the storage slot holds: nothing (`getItem` gives `null`), text that is
   * empty or does not parse as an envelope, or the text `JSON.stringify` wrote
   * for an envelope (kept here as the value it parses back to).
   */
  datatype Slot = Missing | Text(text: string) | Document(envelope: Envelope)

  /** How one `localStorage.setItem` call ends. */
  datatype WriteResult = Written | QuotaExceeded | OtherFailure

  /** `JSON.parse(JSON.stringify(book))`: an `ArrayBuffer` comes back as `{}`, everything else as it was. */
  function ThroughJson(b: Book): Book
  {
    b.(file := if b.file.NoFile? then NoFile else EmptyObject)
  }

  /** `const { file, ...bookWithoutFile } = book`. */
  function StripFile(b: Book): Book
  {
    b.(file := NoFile)
  }

  /** `loadBooks()` as a function of the slot: `[]` unless the slot holds an envelope. */
  function Loaded(slot: Slot): seq<Book>
  {
    match slot
    case Missing => []
    case Text(_) => []
    case Document(envelope) => envelope.books
  }

  /** The slot after `saveBooks(books)`, given how the first write and the stripped retry end. */
  function Saved(slot: Slot, books: seq<Book>, now: int, first: WriteResult, retry: WriteResult): Slot
  {
    match first
    case Written => Document(Envelope(Map(ThroughJson, books), now))
    case OtherFailure => slot
    case QuotaExceeded =>
      if retry == Written then Document(Envelope(Map(ThroughJson, Map(StripFile, books)), now)) else slot
  }

  /** `saveBooks` throws only when the quota was exceeded and the stripped retry failed as well. */
  predicate SaveThrows(first: WriteResult, retry: WriteResult)
  {
    first == QuotaExceeded && retry != Written
  }

  /** `Partial<BookType>`: each field present (`Some`) or absent (`None`). */
  datatype Patch = Patch(
    id: Option<string>,
    title: Option<string>,
    author: Option<string>,
    fileName: Option<string>,
    fileSizeBytes: Option<int>,
    lastOpened: Option<int>,
    addedDate: Option<int>,
    file: Option<FileField>,
    coverUrl: Option<string>,
    totalPages: Option<int>,
    currentPage: Option<int>,
    categories: Option<seq<string>>,
    tags: Option<seq<string>>,
    language: Option<string>,
    isBookmarked: Option<Option<bool>>)

  /**
   * `{ ...book, ...updates }`: every field present in `updates` wins. A patch
   * without an id leaves the record under its id, and a patch without a
   * bookmark flag leaves the flag as it was.
   */
  function Merge(b: Book, p: Patch): (r: Book)
    ensures p.id.None? ==> r.id == b.id
    ensures p.isBookmarked.None? ==> r.isBookmarked == b.isBookmarked
  {
    Book(
      p.id.GetOr(b.id),
      p.title.GetOr(b.title),
      p.author.GetOr(b.author),
      p.fileName.GetOr(b.fileName),
      p.fileSizeBytes.GetOr(b.fileSizeBytes),
      p.lastOpened.GetOr(b.lastOpened),
      p.addedDate.GetOr(b.addedDate),
      p.file.GetOr(b.file),
      p.coverUrl.GetOr(b.coverUrl),
      p.totalPages.GetOr(b.totalPages),
      p.currentPage.GetOr(b.currentPage),
      p.categories.GetOr(b.categories),
      p.tags.GetOr(b.tags),
      p.language.GetOr(b.language),
      p.isBookmarked.GetOr(b.isBookmarked))
  }

  /** `{ ...p, ...q }` on two patches. */
  function Combine(p: Patch, q: Patch): Patch
  {
    Patch(
      if q.id.Some? then q.id else p.id,
      if q.title.Some? then q.title else p.title,
      if q.author.Some? then q.author else p.author,
      if q.fileName.Some? then q.fileName else p.fileName,
      if q.fileSizeBytes.Some? then q.fileSizeBytes else p.fileSizeBytes,
      if q.lastOpened.Some? then q.lastOpened else p.lastOpened,
      if q.addedDate.Some? then q.addedDate else p.addedDate,
      if q.file.Some? then q.file else p.file,
      if q.coverUrl.Some? then q.coverUrl else p.coverUrl,
      if q.totalPages.Some? then q.totalPages else p.totalPages,
      if q.currentPage.Some? then q.currentPage else p.currentPage,
      if q.categories.Some? then q.categories else p.categories,
      if q.tags.Some? then q.tags else p.tags,
      if q.language.Some? then q.language else p.language,
      if q.isBookmarked.Some? then q.isBookmarked else p.isBookmarked)
  }

  /** The list `updateBook(bookId, updates)` computes from the loaded one. */
  function UpdateById(books: seq<Book>, bookId: string, updates: Patch): seq<Book>
  {
    MapById(books, bookId, (b: Book) => Merge(b, updates))
  }

  /** The list `deleteBook(bookId)` computes from the loaded one. */
  function DeleteById(books: seq<Book>, bookId: string): seq<Book>
  {
    Filter((b: Book) => b.id != bookId, books)
  }

  /** The storage slot, with the four operations of the store. */
  class BookStore {
    var slot: Slot

    constructor (initial: Slot)
      ensures slot == initial
    {
      slot := initial;
    }

    /**
     * `saveBooks(books)`: write the envelope; on a quota error write it again
     * with every `file` stripped, letting a failure of that second write
     * escape; swallow any other error.
     */
    method SaveBooks(books: seq<Book>, now: int, first: WriteResult, retry: WriteResult) returns (threw: bool)
      modifies this
      ensures slot == Saved(old(slot), books, now, first, retry)
      ensures threw == SaveThrows(first, retry)
    {
      threw := false;
      match first {
        case Written =>
          slot := Document(Envelope(Map(ThroughJson, books), now));
        case OtherFailure =>
        case QuotaExceeded =>
          var booksWithoutFiles := Map(StripFile, books);
          if retry == Written {
            slot := Document(Envelope(Map(ThroughJson, booksWithoutFiles), now));
          } else {
            threw := true;
          }
      }
    }

    /** `loadBooks()`: never fails; a missing, empty or unparsable slot gives `[]`. */
    method LoadBooks() returns (books: seq<Book>)
      ensures slot.Document? ==> books == slot.envelope.books
      ensures !slot.Document? ==> books == []
    {
      match slot {
        case Missing =>
          books := [];
        case Text(text) =>
          if text == "" {
            // the empty string is falsy
            books := [];
          } else {
            // `JSON.parse` did not give an envelope; the error is logged and swallowed
            books := [];
          }
        case Document(envelope) =>
          books := envelope.books;
      }
    }

    /** `updateBook(bookId, updates)`: load, merge into the matching records, save, return the saved list. */
    method UpdateBook(bookId: string, updates: Patch, now: int, first: WriteResult, retry: WriteResult)
      returns (updatedBooks: seq<Book>, threw: bool)
      modifies this
      ensures updatedBooks == UpdateById(Loaded(old(slot)), bookId, updates)
      ensures slot == Saved(old(slot), updatedBooks, now, first, retry)
      ensures threw == SaveThrows(first, retry)
    {
      var books := LoadBooks();
      updatedBooks := UpdateById(books, bookId, updates);
      threw := SaveBooks(updatedBooks, now, first, retry);
    }

    /** `deleteBook(bookId)`: load, drop the records with the id, save, return the saved list. */
    method DeleteBook(bookId: string, now: int, first: WriteResult, retry: WriteResult)
      returns (updatedBooks: seq<Book>, threw: bool)
      modifies this
      ensures updatedBooks == DeleteById(Loaded(old(slot)), bookId)
      ensures slot == Saved(old(slot), updatedBooks, now, first, retry)
      ensures threw == SaveThrows(first, retry)
    {
      var books := LoadBooks();
      updatedBooks := DeleteById(books, bookId);
      threw := SaveBooks(updatedBooks, now, first, retry);
    }
  }

  // ------------------------------------------------------------ properties

  /** A missing slot, an empty string and text that fails to parse all load as the empty library. */
  lemma LoadWithoutEnvelope(slot: Slot)
    requires !slot.Document?
    ensures Loaded(slot) == []
  {
  }

  /**
   * A save whose first write succeeds loads back as the same records in the
   * same order; only a `file` that held bytes comes back as `{}`.
   */
  lemma SaveThenLoad(slot: Slot, books: seq<Book>, now: int, retry: WriteResult)
    ensures var loaded := Loaded(Saved(slot, books, now, Written, retry));
      SameExceptFiles(loaded, books)
      && forall k :: 0 <= k < |books| ==>
        (books[k].file.NoFile? ==> loaded[k].file == NoFile) && (!books[k].file.NoFile? ==> loaded[k].file == EmptyObject)
  {
  }

  /** After a quota error and a successful retry, the slot holds every record without its file, in order. */
  lemma QuotaRetryDropsOnlyFiles(slot: Slot, books: seq<Book>, now: int)
    ensures var loaded := Loaded(Saved(slot, books, now, QuotaExceeded, Written));
      SameExceptFiles(loaded, books) && forall k :: 0 <= k < |loaded| ==> loaded[k].file == NoFile
  {
  }

  /** A save that fails without throwing, or whose retry throws, leaves the previous slot contents. */
  lemma FailedSaveKeepsSlot(slot: Slot, books: seq<Book>, now: int, first: WriteResult, retry: WriteResult)
    requires first == OtherFailure || SaveThrows(first, retry)
    ensures Saved(slot, books, now, first, retry) == slot
  {
  }

  /** With the same write outcomes, a second save overwrites the first: only the last list saved matters. */
  lemma SavedTwice(slot: Slot, earlier: seq<Book>, later: seq<Book>, now: int, first: WriteResult, retry: WriteResult)
    ensures Saved(Saved(slot, earlier, now, first, retry), later, now, first, retry) == Saved(slot, later, now, first, retry)
  {
  }

  /** Saving what was just loaded and loading again changes nothing: the JSON round trip is idempotent. */
  lemma ResaveIsStable(slot: Slot, books: seq<Book>, now: int, later: int, retry: WriteResult)
    ensures var once := Loaded(Saved(slot, books, now, Written, retry));
      Loaded(Saved(slot, once, later, Written, retry)) == once
  {
  }

  /**
   * `updateBook` keeps length and order, leaves records with another id
   * untouched, and on records with the id overwrites exactly the fields
   * present in `updates`.
   */
  lemma UpdateByIdSpec(books: seq<Book>, bookId: string, updates: Patch)
    ensures |UpdateById(books, bookId, updates)| == |books|
    ensures forall k :: 0 <= k < |books| && books[k].id != bookId ==> UpdateById(books, bookId, updates)[k] == books[k]
    ensures forall k :: 0 <= k < |books| && books[k].id == bookId ==> UpdateById(books, bookId, updates)[k] == Merge(books[k], updates)
  {
    forall k | 0 <= k < |books| {
      MapByIdAt(books, bookId, (b: Book) => Merge(b, updates), k);
    }
  }

  /** A patch keeps every field it does not mention, and an empty patch changes nothing. */
  lemma MergeKeepsAbsentFields(b: Book, p: Patch)
    ensures p.id.None? ==> Merge(b, p).id == b.id
    ensures p.title.None? ==> Merge(b, p).title == b.title
    ensures p.author.None? ==> Merge(b, p).author == b.author
    ensures p.fileName.None? ==> Merge(b, p).fileName == b.fileName
    ensures p.fileSizeBytes.None? ==> Merge(b, p).fileSizeBytes == b.fileSizeBytes
    ensures p.lastOpened.None? ==> Merge(b, p).lastOpened == b.lastOpened
    ensures p.addedDate.None? ==> Merge(b, p).addedDate == b.addedDate
    ensures p.file.None? ==> Merge(b, p).file == b.file
    ensures p.coverUrl.None? ==> Merge(b, p).coverUrl == b.coverUrl
    ensures p.totalPages.None? ==> Merge(b, p).totalPages == b.totalPages
    ensures p.currentPage.None? ==> Merge(b, p).currentPage == b.currentPage
    ensures p.categories.None? ==> Merge(b, p).categories == b.categories
    ensures p.tags.None? ==> Merge(b, p).tags == b.tags
    ensures p.language.None? ==> Merge(b, p).language == b.language
    ensures p.isBookmarked.None? ==> Merge(b, p).isBookmarked == b.isBookmarked
    ensures Merge(b, Patch(None, None, None, None, None, None, None, None, None, None, None, None, None, None, None)) == b
  {
  }

  /** Applying two patches in turn is applying their combination: `{...{...b, ...p}, ...q} == {...b, ...{...p, ...q}}`. */
  lemma MergeCombine(b: Book, p: Patch, q: Patch)
    ensures Merge(Merge(b, p), q) == Merge(b, Combine(p, q))
  {
  }

  /** Repeating the same `updateBook` changes nothing further. */
  lemma {:induction false} UpdateByIdIdempotent(books: seq<Book>, bookId: string, updates: Patch)
    ensures UpdateById(UpdateById(books, bookId, updates), bookId, updates) == UpdateById(books, bookId, updates)
  {
    if books != [] {
      var once := UpdateById(books, bookId, updates);
      var head := if books[0].id == bookId then Merge(books[0], updates) else books[0];
      assert once == [head] + UpdateById(books[1..], bookId, updates);
      assert once[0] == head && once[1..] == UpdateById(books[1..], bookId, updates);
      UpdateByIdIdempotent(books[1..], bookId, updates);
      MergeCombine(books[0], updates, updates);
      assert Combine(updates, updates) == updates;
      if books[0].id == bookId {
        assert (if head.id == bookId then Merge(head, updates) else head) == head;
      }
      assert UpdateById(once, bookId, updates)
          == [if head.id == bookId then Merge(head, updates) else head] + UpdateById(once[1..], bookId, updates);
    }
  }

  /**
   * `deleteBook` removes every record with the id, keeps every occurrence of
   * every other record, keeps their order, and leaves the list as it was when
   * no record has the id.
   */
  lemma DeleteByIdSpec(books: seq<Book>, bookId: string)
    ensures forall b :: b in DeleteById(books, bookId) ==> b.id != bookId
    ensures forall b :: b in books && b.id != bookId ==> b in DeleteById(books, bookId)
    ensures IsSublist(DeleteById(books, bookId), books)
    ensures forall b :: multiset(DeleteById(books, bookId))[b] == if b.id != bookId then multiset(books)[b] else 0
    ensures bookId !in Ids(books) ==> DeleteById(books, bookId) == books
  {
    var keep := (b: Book) => b.id != bookId;
    forall b | b in books || b in DeleteById(books, bookId)
      ensures b in DeleteById(books, bookId) <==> b in books && b.id != bookId
    {
      FilterMembership(keep, books, b);
    }
    forall b: Book
      ensures multiset(DeleteById(books, bookId))[b] == if b.id != bookId then multiset(books)[b] else 0
    {
      FilterMultiplicity(keep, books, b);
    }
    FilterIsSublist(keep, books);
    if bookId !in Ids(books) {
      FilterAllKept(keep, books);
    }
  }
}
