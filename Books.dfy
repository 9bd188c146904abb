/**
 * The book record every part of the application works on. ISO-8601 date
 * strings are modelled as integer timestamps (milliseconds), which is how the
 * code compares them (`new Date(s).getTime()`).
 */
module Books {
  import opened Wrappers

  type Bytes = seq<bv8>

  /**
   * The optional `file` field. A freshly read upload holds an `ArrayBuffer`
   * (`Buffer`); after a round trip through JSON the field holds the empty plain
   * object `{}` that `JSON.stringify` writes for an `ArrayBuffer` (`EmptyObject`),
   * whose bytes are gone.
   */
  datatype FileField = NoFile | Buffer(bytes: Bytes) | EmptyObject

  datatype Book = Book(
    id: string,
    title: string,
    author: string,
    fileName: string,
    fileSizeBytes: int,
    lastOpened: int,
    addedDate: int,
    file: FileField,
    coverUrl: string,
    totalPages: int,
    currentPage: int,
    categories: seq<string>,
    tags: seq<string>,
    language: string,
    isBookmarked: Option<bool>)

  /** JavaScript truthiness of the optional flag: only `true` counts. */
  predicate Truthy(flag: Option<bool>)
  {
    flag == Some(true)
  }

  /** The filter `book => book.isBookmarked`. */
  predicate IsBookmarked(b: Book)
  {
    Truthy(b.isBookmarked)
  }

  /** The ids of a list, in order. */
  function Ids(books: seq<Book>): (r: seq<string>)
    ensures |r| == |books|
    ensures forall k :: 0 <= k < |books| ==> r[k] == books[k].id
  {
    seq(|books|, k requires 0 <= k < |books| => books[k].id)
  }

  /** Two records agree on every field except `file`. */
  predicate SameExceptFile(a: Book, b: Book)
  {
    a.(file := NoFile) == b.(file := NoFile)
  }

  /** Two lists agree record by record on every field except `file`. */
  predicate SameExceptFiles(a: seq<Book>, b: seq<Book>)
  {
    |a| == |b| && forall k :: 0 <= k < |a| ==> SameExceptFile(a[k], b[k])
  }
}
