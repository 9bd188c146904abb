/**
 * The uploader's batch loop: every picked file is checked for the PDF type,
 * read and its metadata extracted, and a new book record is built with
 * fallbacks and handed to `onBookAdded`. Reading the file and extracting the
 * metadata are outside the model: their outcome, and the clock reading taken
 * for the file, are part of each picked file.
 */
module BookUploader {
  import opened Wrappers
  import opened Books
  import opened Text

  const PdfType: string := "application/pdf"

  /** What `extractPdfMetadata` returns; a field may be absent. */
  datatype Metadata = Metadata(
    title: Option<string>,
    author: Option<string>,
    coverUrl: Option<string>,
    totalPages: Option<int>,
    language: Option<string>)

  /** The outcome of reading a file and extracting its metadata, with the instant it completed. */
  datatype Outcome = Failed | Extracted(data: Bytes, metadata: Metadata, now: nat)

  datatype PickedFile = PickedFile(name: string, mimeType: string, size: nat, outcome: Outcome)

  /** `value || fallback` for an optional string: absent and empty are falsy. */
  function OrString(v: Option<string>, fallback: string): (r: string)
    ensures v.Some? && v.value != "" ==> r == v.value
    ensures v.None? || v.value == "" ==> r == fallback
  {
    if v.Some? && v.value != "" then v.value else fallback
  }

  /** `value || fallback` for an optional number: absent and 0 are falsy. */
  function OrNumber(v: Option<int>, fallback: int): (r: int)
    ensures v.Some? && v.value != 0 ==> r == v.value
    ensures v.None? || v.value == 0 ==> r == fallback
  {
    if v.Some? && v.value != 0 then v.value else fallback
  }

  /** The record built for the file at batch index `i`. */
  function NewBook(f: PickedFile, i: nat, data: Bytes, metadata: Metadata, now: nat): (r: Book)
    ensures r.id == Decimal(now) + Decimal(i)
    ensures r.fileName == f.name && r.fileSizeBytes == f.size && r.file == Buffer(data)
    ensures r.currentPage == 1 && r.categories == [] && r.tags == [] && r.isBookmarked == None
    ensures r.lastOpened == now && r.addedDate == now
    ensures metadata.title.Some? && metadata.title.value != "" ==> r.title == metadata.title.value
    ensures metadata.author.Some? && metadata.author.value != "" ==> r.author == metadata.author.value
    ensures metadata.coverUrl.Some? && metadata.coverUrl.value != "" ==> r.coverUrl == metadata.coverUrl.value
    ensures metadata.totalPages.Some? && metadata.totalPages.value != 0 ==> r.totalPages == metadata.totalPages.value
    ensures metadata.language.Some? && metadata.language.value != "" ==> r.language == metadata.language.value
    ensures metadata.title.None? || metadata.title == Some("") ==> r.title == ReplaceFirst(f.name, ".pdf", "")
    ensures metadata.author.None? || metadata.author == Some("") ==> r.author == "Unknown Author"
    ensures metadata.coverUrl.None? || metadata.coverUrl == Some("") ==> r.coverUrl == "/placeholder.svg"
    ensures metadata.totalPages.None? || metadata.totalPages == Some(0) ==> r.totalPages == 0
    ensures metadata.language.None? || metadata.language == Some("") ==> r.language == "Unknown"
  {
    Book(
      id := Decimal(now) + Decimal(i),
      title := OrString(metadata.title, ReplaceFirst(f.name, ".pdf", "")),
      author := OrString(metadata.author, "Unknown Author"),
      fileName := f.name,
      fileSizeBytes := f.size,
      lastOpened := now,
      addedDate := now,
      file := Buffer(data),
      coverUrl := OrString(metadata.coverUrl, "/placeholder.svg"),
      totalPages := OrNumber(metadata.totalPages, 0),
      currentPage := 1,
      categories := [],
      tags := [],
      language := OrString(metadata.language, "Unknown"),
      isBookmarked := None)
  }

  /** The book reported for one file of the batch: none for a non-PDF or a failed read. */
  function BookFor(f: PickedFile, i: nat): (r: Option<Book>)
    ensures r.Some? <==> f.mimeType == PdfType && f.outcome.Extracted?
  {
    if f.mimeType != PdfType then None
    else
      match f.outcome
      case Failed => None
      case Extracted(data, metadata, now) => Some(NewBook(f, i, data, metadata, now))
  }

  /** The books reported for the first `n` files, in file order. */
  function Accepted(files: seq<PickedFile>, n: nat): seq<Book>
    requires n <= |files|
  {
    if n == 0 then []
    else
      Accepted(files, n - 1) + match BookFor(files[n - 1], n - 1) case Some(b) => [b] case None => []
  }

  /** The batch indices of the files that reported a book. */
  function AcceptedIndices(files: seq<PickedFile>, n: nat): seq<nat>
    requires n <= |files|
  {
    if n == 0 then []
    else AcceptedIndices(files, n - 1) + if BookFor(files[n - 1], n - 1).Some? then [n - 1] else []
  }

  lemma {:induction false} AcceptedUnfold(files: seq<PickedFile>, n: nat)
    requires 0 < n <= |files|
    ensures BookFor(files[n - 1], n - 1).Some? ==>
      Accepted(files, n) == Accepted(files, n - 1) + [BookFor(files[n - 1], n - 1).value]
      && AcceptedIndices(files, n) == AcceptedIndices(files, n - 1) + [n - 1]
    ensures BookFor(files[n - 1], n - 1).None? ==>
      Accepted(files, n) == Accepted(files, n - 1) && AcceptedIndices(files, n) == AcceptedIndices(files, n - 1)
  {
  }

  /** At most one book per file, and each reported book is the book of the file at its index. */
  lemma {:induction false} AcceptedOrigins(files: seq<PickedFile>, n: nat)
    requires n <= |files|
    ensures |AcceptedIndices(files, n)| == |Accepted(files, n)| <= n
    ensures forall k :: 0 <= k < |Accepted(files, n)| ==>
      AcceptedIndices(files, n)[k] < n
      && BookFor(files[AcceptedIndices(files, n)[k]], AcceptedIndices(files, n)[k]) == Some(Accepted(files, n)[k])
  {
    if n > 0 {
      AcceptedOrigins(files, n - 1);
      AcceptedUnfold(files, n);
    }
  }

  /** The books are reported in increasing file order, and every PDF that was read reports its book. */
  lemma AcceptedInFileOrder(files: seq<PickedFile>, n: nat)
    requires n <= |files|
    ensures forall k :: 0 <= k < |AcceptedIndices(files, n)| ==> AcceptedIndices(files, n)[k] < n
    ensures forall k, l :: 0 <= k < l < |AcceptedIndices(files, n)| ==> AcceptedIndices(files, n)[k] < AcceptedIndices(files, n)[l]
    ensures forall i :: 0 <= i < n && files[i].mimeType == PdfType && files[i].outcome.Extracted? ==> i in AcceptedIndices(files, n)
  {
    AcceptedIndicesIncrease(files, n);
    AcceptedIndicesComplete(files, n);
  }

  lemma {:induction false} AcceptedIndicesIncrease(files: seq<PickedFile>, n: nat)
    requires n <= |files|
    ensures forall k :: 0 <= k < |AcceptedIndices(files, n)| ==> AcceptedIndices(files, n)[k] < n
    ensures forall k, l :: 0 <= k < l < |AcceptedIndices(files, n)| ==> AcceptedIndices(files, n)[k] < AcceptedIndices(files, n)[l]
  {
    if n > 0 {
      AcceptedIndicesIncrease(files, n - 1);
      var prev := AcceptedIndices(files, n - 1);
      if BookFor(files[n - 1], n - 1).Some? {
        assert AcceptedIndices(files, n) == prev + [n - 1];
      } else {
        assert AcceptedIndices(files, n) == prev;
      }
    }
  }

  lemma {:induction false} AcceptedIndicesComplete(files: seq<PickedFile>, n: nat)
    requires n <= |files|
    ensures forall i :: 0 <= i < n && files[i].mimeType == PdfType && files[i].outcome.Extracted? ==> i in AcceptedIndices(files, n)
  {
    if n > 0 {
      AcceptedIndicesComplete(files, n - 1);
      var prev := AcceptedIndices(files, n - 1);
      if BookFor(files[n - 1], n - 1).Some? {
        assert AcceptedIndices(files, n) == prev + [n - 1];
      } else {
        assert AcceptedIndices(files, n) == prev;
      }
      forall i | 0 <= i < n && files[i].mimeType == PdfType && files[i].outcome.Extracted?
        ensures i in AcceptedIndices(files, n)
      {
        if i < n - 1 {
          assert i in prev;
        }
      }
    }
  }

  /** A file that is not a PDF, or whose read failed, reports nothing. */
  lemma RejectedFilesReportNothing(f: PickedFile, i: nat)
    requires f.mimeType != PdfType || f.outcome.Failed?
    ensures BookFor(f, i).None?
  {
  }

  /** Without a metadata title, `name.pdf` gives the title `name` when `name` holds no ".pdf" itself. */
  lemma {:induction false} TitleFromFileName(base: string)
    requires !Contains(base, ".pdf")
    ensures ReplaceFirst(base + ".pdf", ".pdf", "") == base
  {
    var name := base + ".pdf";
    assert OccursAt(name, ".pdf", |base|);
    forall j | 0 <= j < |base|
      ensures !OccursAt(name, ".pdf", j)
    {
      if j + 4 <= |base| {
        assert name[j..j + 4] == base[j..j + 4];
        assert !OccursAt(base, ".pdf", j);
      } else {
        assert name[j..j + 4][|base| - j] == '.';
        assert ".pdf"[|base| - j] != '.';
      }
    }
    var r := ReplaceFirst(name, ".pdf", "");
    ReplaceFirstSpec(name, ".pdf", "");
    var i :| OccursAt(name, ".pdf", i) && (forall j :: 0 <= j < i ==> !OccursAt(name, ".pdf", j))
      && r == name[..i] + "" + name[i + 4..];
    assert i == |base|;
    assert name[..|base|] == base;
  }

  /** Only the first ".pdf" is removed, wherever it is: `a.pdf.b.pdf` gets the title `a.b.pdf`. */
  lemma FirstPdfIsRemoved()
    ensures ReplaceFirst("a.pdf.b.pdf", ".pdf", "") == "a.b.pdf"
  {
    var s := "a.pdf.b.pdf";
    assert s[0..4][0] == 'a';
    assert s[1..5] == ".pdf";
    assert IndexOfFrom(s, ".pdf", 1) == Some(1);
    assert IndexOfFrom(s, ".pdf", 0) == Some(1);
  }

  /** Two files of a batch read at the same instant get different ids. */
  lemma IdsDifferAtSameInstant(now: nat, i: nat, j: nat)
    requires i != j
    ensures Decimal(now) + Decimal(i) != Decimal(now) + Decimal(j)
  {
    var p := Decimal(now);
    if p + Decimal(i) == p + Decimal(j) {
      assert (p + Decimal(i))[|p|..] == Decimal(i);
      assert (p + Decimal(j))[|p|..] == Decimal(j);
      DecimalRoundTrip(i);
      DecimalRoundTrip(j);
    }
  }

  /** Across instants the concatenated ids can collide: instant 1 with index 12 and instant 11 with index 2. */
  lemma IdsCollideAcrossInstants()
    ensures Decimal(1) + Decimal(12) == Decimal(11) + Decimal(2)
  {
    assert Decimal(12) == Decimal(1) + Decimal(2);
    assert Decimal(11) == Decimal(1) + Decimal(1);
  }

  class Uploader {
    /** `isProcessing`. */
    var isProcessing: bool
    /** The books handed to `onBookAdded`, in the order they were handed over. */
    var added: seq<Book>

    constructor ()
      ensures !isProcessing && added == []
    {
      isProcessing := false;
      added := [];
    }

    /**
     * `processFiles`: the flag is set for the whole batch; each file is either
     * skipped or reported, in file order; the flag is cleared at the end.
     */
    method ProcessFiles(files: seq<PickedFile>)
      modifies this
      ensures added == old(added) + Accepted(files, |files|)
      ensures !isProcessing
    {
      isProcessing := true;
      var i := 0;
      while i < |files|
        invariant 0 <= i <= |files|
        invariant isProcessing
        invariant added == old(added) + Accepted(files, i)
      {
        var file := files[i];
        // A file that is not a PDF is skipped; a failed read reports nothing.
        if file.mimeType == PdfType {
          if file.outcome.Extracted? {
            var book := NewBook(file, i, file.outcome.data, file.outcome.metadata, file.outcome.now);
            added := added + [book];
          }
        }
        i := i + 1;
      }
      isProcessing := false;
    }
  }
}
