/**
 * The library grid: the search-box filter over title, author, tags and
 * categories, and the sort by one of four keys (`SortOption`), applied to a
 * copy of the filtered list.
 */
module BookGrid {
  import opened Books
  import opened Seqs
  import opened Text

  // ---------------------------------------------------------------- filter

  /** `book.title.toLowerCase().includes(term) || ... tags.some(...) || categories.some(...)`. */
  predicate GridMatches(b: Book, term: string)
  {
    Contains(Lower(b.title), term)
    || Contains(Lower(b.author), term)
    || (exists k :: 0 <= k < |b.tags| && Contains(Lower(b.tags[k]), term))
    || (exists k :: 0 <= k < |b.categories| && Contains(Lower(b.categories[k]), term))
  }

  /** `filteredBooks`: all books for a blank search term, otherwise the matches of the lowercased, untrimmed term. */
  function FilterBooks(books: seq<Book>, searchTerm: string): (r: seq<Book>)
    ensures |r| <= |books|
    ensures forall k :: 0 <= k < |r| ==> r[k] in books
  {
    if Trim(searchTerm) == [] then books
    else Filter((b: Book) => GridMatches(b, Lower(searchTerm)), books)
  }

  /** A blank search term shows every book, in order. */
  lemma BlankTermKeepsAll(books: seq<Book>, searchTerm: string)
    requires Blank(searchTerm)
    ensures FilterBooks(books, searchTerm) == books
  {
    TrimEmptyIffBlank(searchTerm);
  }

  /**
   * Otherwise a book is shown iff its lowercased title, author, some tag or
   * some category contains the lowercased term (surrounding spaces included);
   * every occurrence of a matching book is shown, in the original order.
   */
  lemma FilterBooksSpec(books: seq<Book>, searchTerm: string)
    requires !Blank(searchTerm)
    ensures forall b :: b in FilterBooks(books, searchTerm) <==> b in books && GridMatches(b, Lower(searchTerm))
    ensures IsSublist(FilterBooks(books, searchTerm), books)
    ensures forall b :: multiset(FilterBooks(books, searchTerm))[b] == if GridMatches(b, Lower(searchTerm)) then multiset(books)[b] else 0
  {
    TrimEmptyIffBlank(searchTerm);
    var p := (b: Book) => GridMatches(b, Lower(searchTerm));
    forall b: Book
      ensures b in FilterBooks(books, searchTerm) <==> b in books && GridMatches(b, Lower(searchTerm))
      ensures multiset(FilterBooks(books, searchTerm))[b] == if GridMatches(b, Lower(searchTerm)) then multiset(books)[b] else 0
    {
      FilterMembership(p, books, b);
      FilterMultiplicity(p, books, b);
    }
    FilterIsSublist(p, books);
  }

  // ------------------------------------------------------------------ sort

  datatype SortOption = ByTitle | ByAuthor | ByLastOpened | ByAddedDate

  /** The grid's initial `sortBy`. */
  const DefaultSort: SortOption := ByAddedDate

  /** `a.localeCompare(b) <= 0`, with the locale collation modelled as code-point lexicographic order. */
  predicate LexLe(a: string, b: string)
  {
    a == [] || (b != [] && (a[0] < b[0] || (a[0] == b[0] && LexLe(a[1..], b[1..]))))
  }

  /** The comparator returns a value `<= 0` for `(a, b)`: `a` may stay in front of `b`. */
  predicate Precedes(order: SortOption, a: Book, b: Book)
  {
    match order
    case ByTitle => LexLe(a.title, b.title)
    case ByAuthor => LexLe(a.author, b.author)
    case ByLastOpened => b.lastOpened - a.lastOpened <= 0
    case ByAddedDate => b.addedDate - a.addedDate <= 0
  }

  predicate SortedBy(order: SortOption, s: seq<Book>)
  {
    forall i, j :: 0 <= i < j < |s| ==> Precedes(order, s[i], s[j])
  }

  lemma {:induction false} LexLeTotal(a: string, b: string)
    ensures LexLe(a, b) || LexLe(b, a)
  {
    if a != [] && b != [] && a[0] == b[0] {
      LexLeTotal(a[1..], b[1..]);
    }
  }

  lemma {:induction false} LexLeTransitive(a: string, b: string, c: string)
    requires LexLe(a, b) && LexLe(b, c)
    ensures LexLe(a, c)
  {
    if a != [] && b != [] && c != [] && a[0] == b[0] && b[0] == c[0] {
      LexLeTransitive(a[1..], b[1..], c[1..]);
    }
  }

  /** Every pair of books can be ordered one way or the other. */
  lemma PrecedesTotal(order: SortOption, a: Book, b: Book)
    ensures Precedes(order, a, b) || Precedes(order, b, a)
  {
    match order
    case ByTitle => LexLeTotal(a.title, b.title);
    case ByAuthor => LexLeTotal(a.author, b.author);
    case ByLastOpened =>
    case ByAddedDate =>
  }

  lemma PrecedesTransitive(order: SortOption, a: Book, b: Book, c: Book)
    requires Precedes(order, a, b) && Precedes(order, b, c)
    ensures Precedes(order, a, c)
  {
    match order
    case ByTitle => LexLeTransitive(a.title, b.title, c.title);
    case ByAuthor => LexLeTransitive(a.author, b.author, c.author);
    case ByLastOpened =>
    case ByAddedDate =>
  }

  /** Place `x` in front of the first element it may precede, so `x` stays ahead of the elements it ties with. */
  function Insert(order: SortOption, x: Book, s: seq<Book>): seq<Book>
  {
    if s == [] || Precedes(order, x, s[0]) then [x] + s
    else [s[0]] + Insert(order, x, s[1..])
  }

  /** Inserting adds exactly `x`, wherever it lands. */
  lemma {:induction false} InsertPermutes(order: SortOption, x: Book, s: seq<Book>)
    ensures multiset(Insert(order, x, s)) == multiset(s) + multiset{x}
  {
    if s != [] && !Precedes(order, x, s[0]) {
      InsertPermutes(order, x, s[1..]);
      assert s == [s[0]] + s[1..];
    }
  }

  /** `[...books].sort(comparator)`: a sort of a copy, stable as `SortBooksStable` proves. */
  function SortBooks(order: SortOption, books: seq<Book>): (r: seq<Book>)
    ensures multiset(r) == multiset(books)
  {
    if books == [] then []
    else
      assert books == [books[0]] + books[1..];
      InsertPermutes(order, books[0], SortBooks(order, books[1..]));
      Insert(order, books[0], SortBooks(order, books[1..]))
  }

  lemma {:induction false} InsertSpec(order: SortOption, x: Book, s: seq<Book>)
    requires SortedBy(order, s)
    ensures multiset(Insert(order, x, s)) == multiset(s) + multiset{x}
    ensures SortedBy(order, Insert(order, x, s))
  {
    InsertPermutes(order, x, s);
    if s == [] {
    } else if Precedes(order, x, s[0]) {
      var r := [x] + s;
      forall i, j | 0 <= i < j < |r|
        ensures Precedes(order, r[i], r[j])
      {
        if i == 0 && j > 1 {
          PrecedesTransitive(order, x, s[0], s[j - 1]);
        }
      }
    } else {
      PrecedesTotal(order, x, s[0]);
      InsertSpec(order, x, s[1..]);
      HeadPrecedesInserted(order, x, s);
      var t := Insert(order, x, s[1..]);
      var r := [s[0]] + t;
      forall i, j | 0 <= i < j < |r|
        ensures Precedes(order, r[i], r[j])
      {
        if i > 0 {
          assert r[i] == t[i - 1] && r[j] == t[j - 1];
        }
      }
    }
  }

  /** The head of a sorted list may precede everything `x` is inserted among behind it. */
  lemma HeadPrecedesInserted(order: SortOption, x: Book, s: seq<Book>)
    requires SortedBy(order, s) && s != [] && Precedes(order, s[0], x)
    ensures forall j :: 0 <= j < |Insert(order, x, s[1..])| ==> Precedes(order, s[0], Insert(order, x, s[1..])[j])
  {
    var t := Insert(order, x, s[1..]);
    InsertPermutes(order, x, s[1..]);
    forall j | 0 <= j < |t|
      ensures Precedes(order, s[0], t[j])
    {
      assert t[j] in multiset(t);
      if t[j] != x {
        assert t[j] in multiset(s[1..]);
        var i :| 0 <= i < |s[1..]| && s[1..][i] == t[j];
        assert s[i + 1] == t[j];
      }
    }
  }

  /** The sorted list is a permutation of its input, ordered by the comparator. */
  lemma {:induction false} SortBooksSpec(order: SortOption, books: seq<Book>)
    ensures multiset(SortBooks(order, books)) == multiset(books)
    ensures SortedBy(order, SortBooks(order, books))
  {
    if books != [] {
      SortBooksSpec(order, books[1..]);
      InsertSpec(order, books[0], SortBooks(order, books[1..]));
      assert books == [books[0]] + books[1..];
    }
  }

  /** The books the comparator puts level with `y`: each may precede the other. */
  function TiedWith(order: SortOption, y: Book): Book -> bool
  {
    b => Precedes(order, b, y) && Precedes(order, y, b)
  }

  /** Two books level with the same `y` may precede each other. */
  lemma TiedWithSame(order: SortOption, x: Book, z: Book, y: Book)
    requires TiedWith(order, y)(x) && TiedWith(order, y)(z)
    ensures Precedes(order, x, z)
  {
    PrecedesTransitive(order, x, y, z);
  }

  /** Inserting `x` puts it in front of every element it ties with. */
  lemma {:induction false} InsertTies(order: SortOption, x: Book, s: seq<Book>, y: Book)
    ensures Filter(TiedWith(order, y), Insert(order, x, s)) ==
      (if TiedWith(order, y)(x) then [x] else []) + Filter(TiedWith(order, y), s)
  {
    var p := TiedWith(order, y);
    if s == [] || Precedes(order, x, s[0]) {
      FilterCons(p, x, s);
    } else {
      InsertTies(order, x, s[1..], y);
      InsertTiesStep(order, x, s, y);
    }
  }

  /** The step of `InsertTies` where `x` goes behind the head. */
  lemma InsertTiesStep(order: SortOption, x: Book, s: seq<Book>, y: Book)
    requires s != [] && !Precedes(order, x, s[0])
    requires Filter(TiedWith(order, y), Insert(order, x, s[1..])) ==
      (if TiedWith(order, y)(x) then [x] else []) + Filter(TiedWith(order, y), s[1..])
    ensures Filter(TiedWith(order, y), Insert(order, x, s)) ==
      (if TiedWith(order, y)(x) then [x] else []) + Filter(TiedWith(order, y), s)
  {
    var p := TiedWith(order, y);
    var t := Insert(order, x, s[1..]);
    assert Insert(order, x, s) == [s[0]] + t;
    FilterCons(p, s[0], t);
    FilterCons(p, s[0], s[1..]);
    assert [s[0]] + s[1..] == s;
    if p(x) && p(s[0]) {
      TiedWithSame(order, x, s[0], y);
      assert false;
    }
    KeptHeadsCommute(p, s[0], x, Filter(p, s[1..]));
  }

  /** When at most one of `a` and `x` passes `p`, the order of their filtered heads does not matter. */
  lemma KeptHeadsCommute<T>(p: T -> bool, a: T, x: T, rest: seq<T>)
    requires !(p(a) && p(x))
    ensures (if p(a) then [a] else []) + ((if p(x) then [x] else []) + rest)
      == (if p(x) then [x] else []) + ((if p(a) then [a] else []) + rest)
  {
    if p(a) {
      assert (if p(x) then [x] else []) + rest == rest;
    } else {
      assert (if p(a) then [a] else []) + rest == rest;
    }
  }

  /**
   * The sort is stable: the books that compare equal to any `y` come out in
   * the order they went in.
   */
  lemma {:induction false} SortBooksStable(order: SortOption, books: seq<Book>, y: Book)
    ensures Filter(TiedWith(order, y), SortBooks(order, books)) == Filter(TiedWith(order, y), books)
  {
    if books != [] {
      SortBooksStable(order, books[1..], y);
      InsertTies(order, books[0], SortBooks(order, books[1..]), y);
    }
  }

  /** `sortedBooks`. */
  function SortedBooks(books: seq<Book>, searchTerm: string, order: SortOption): seq<Book>
  {
    SortBooks(order, FilterBooks(books, searchTerm))
  }

  /**
   * The grid shows a permutation of the filtered list. Date sorts put the
   * newest first, the title and author sorts go in ascending order.
   */
  lemma SortedBooksSpec(books: seq<Book>, searchTerm: string, order: SortOption)
    ensures multiset(SortedBooks(books, searchTerm, order)) == multiset(FilterBooks(books, searchTerm))
    ensures order == ByAddedDate ==> forall i, j :: 0 <= i < j < |SortedBooks(books, searchTerm, order)| ==>
      SortedBooks(books, searchTerm, order)[i].addedDate >= SortedBooks(books, searchTerm, order)[j].addedDate
    ensures order == ByLastOpened ==> forall i, j :: 0 <= i < j < |SortedBooks(books, searchTerm, order)| ==>
      SortedBooks(books, searchTerm, order)[i].lastOpened >= SortedBooks(books, searchTerm, order)[j].lastOpened
    ensures order == ByTitle ==> forall i, j :: 0 <= i < j < |SortedBooks(books, searchTerm, order)| ==>
      LexLe(SortedBooks(books, searchTerm, order)[i].title, SortedBooks(books, searchTerm, order)[j].title)
    ensures order == ByAuthor ==> forall i, j :: 0 <= i < j < |SortedBooks(books, searchTerm, order)| ==>
      LexLe(SortedBooks(books, searchTerm, order)[i].author, SortedBooks(books, searchTerm, order)[j].author)
  {
    SortBooksSpec(order, FilterBooks(books, searchTerm));
  }

  // ------------------------------------------------------------------ view

  /** What the grid renders. */
  datatype GridView = EmptyLibrary | NoMatches | Cards(shown: seq<Book>)

  function Render(books: seq<Book>, searchTerm: string, order: SortOption): GridView
  {
    if |books| == 0 then EmptyLibrary
    else
      var sorted := SortedBooks(books, searchTerm, order);
      if |sorted| == 0 then NoMatches else Cards(sorted)
  }

  /**
   * An empty library shows the empty state whatever the term; a blank term on a
   * non-empty library always shows cards, and the cards are the sorted matches.
   */
  lemma RenderSpec(books: seq<Book>, searchTerm: string, order: SortOption)
    ensures Render(books, searchTerm, order).EmptyLibrary? <==> books == []
    ensures books != [] && Blank(searchTerm) ==> Render(books, searchTerm, order).Cards?
    ensures Render(books, searchTerm, order).Cards? ==> Render(books, searchTerm, order).shown == SortedBooks(books, searchTerm, order)
  {
    if books != [] && Blank(searchTerm) {
      BlankTermKeepsAll(books, searchTerm);
      SortBooksSpec(order, books);
      assert books[0] in multiset(SortedBooks(books, searchTerm, order));
    }
  }
}
