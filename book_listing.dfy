/**
 * The two list computations the library page and the "my books" page share: the books
 * related to a selected one, and the books shown under the level chosen in the filter.
 */
module BookListing {
  import opened Wrappers
  import opened Seqs
  import opened BookService
  import LibraryFilter

  /** The most related books offered beside a selected one. */
  const MaxRelated := 3

  /** Another book with exactly the same stored level. */
  predicate IsRelated(b: Row, book: Row) {
    b.book.languagelevel == book.book.languagelevel && b.id != book.id
  }

  function RelatedTo(book: Row): Row -> bool {
    (b: Row) => IsRelated(b, book)
  }

  /** `getRelatedBooks(book)`: the first three books, in list order, that are related to `book`. */
  function RelatedBooks(books: seq<Row>, book: Row): (r: seq<Row>)
    ensures |r| <= MaxRelated
    ensures forall k :: 0 <= k < |r| ==> r[k] in books && IsRelated(r[k], book)
    ensures |r| == Min(MaxRelated, |Filter(books, RelatedTo(book))|)
    ensures r == Filter(books, RelatedTo(book))[..|r|]
  {
    var related := Filter(books, RelatedTo(book));
    related[..Min(MaxRelated, |related|)]
  }

  /** The related books keep the list's order, and a book is never related to itself. */
  lemma RelatedInOrder(books: seq<Row>, book: Row)
    ensures IsSubsequence(RelatedBooks(books, book), books)
    ensures book !in RelatedBooks(books, book)
  {
    var related := Filter(books, RelatedTo(book));
    FilterIsSubsequence(books, RelatedTo(book));
    PrefixIsSubsequence(related, |RelatedBooks(books, book)|);
    SubsequenceTransitive(RelatedBooks(books, book), related, books);
  }

  /** With at most three related books, all of them are offered. */
  lemma AllRelatedWhenFew(books: seq<Row>, book: Row, b: Row)
    requires |Filter(books, RelatedTo(book))| <= MaxRelated
    requires b in books && IsRelated(b, book)
    ensures b in RelatedBooks(books, book)
  {
    FilterKeepsPassing(books, RelatedTo(book), b);
    assert Filter(books, RelatedTo(book))[..|Filter(books, RelatedTo(book))|] == Filter(books, RelatedTo(book));
  }

  /**
   * `selectedBook ? getRelatedBooks(selectedBook) : []`, the list both pages hand to the
   * details dialog: nothing without a selection, else at most three books of the list,
   * none of them the selected one.
   */
  function Offered(books: seq<Row>, selected: Option<Row>): (r: seq<Row>)
    ensures |r| <= MaxRelated
    ensures selected.None? ==> r == []
    ensures selected.Some? ==> r == RelatedBooks(books, selected.value) && selected.value !in r
    ensures forall x :: x in r ==> x in books
  {
    if selected.Some? then RelatedBooks(books, selected.value) else []
  }

  /** `searchParams.level` is truthy and not `all`. */
  predicate Filters(level: Option<string>) {
    level.Some? && level.value != "" && level.value != "all"
  }

  function InRange(level: string): Row -> bool {
    (b: Row) => LibraryFilter.IsInRange(b.book.languagelevel, level)
  }

  /** `filteredBooks`: the books whose stored level covers the chosen one; all of them when none is chosen. */
  function FilteredBooks(books: seq<Row>, level: Option<string>): (r: seq<Row>)
    ensures !Filters(level) ==> r == books
    ensures Filters(level) ==> r == Filter(books, InRange(level.value))
    ensures forall b :: b in r ==> b in books
    ensures Filters(level) ==> forall b :: b in r ==> LibraryFilter.IsInRange(b.book.languagelevel, level.value)
  {
    if Filters(level) then Filter(books, InRange(level.value)) else books
  }

  /** The filtered list keeps the order of the list, and drops exactly the books out of range. */
  lemma FilteredInOrder(books: seq<Row>, level: Option<string>)
    ensures IsSubsequence(FilteredBooks(books, level), books)
    ensures Filters(level) ==> forall b :: b in books ==>
      (b in FilteredBooks(books, level) <==> LibraryFilter.IsInRange(b.book.languagelevel, level.value))
  {
    if Filters(level) {
      FilterIsSubsequence(books, InRange(level.value));
      forall b | b in books && LibraryFilter.IsInRange(b.book.languagelevel, level.value)
        ensures b in FilteredBooks(books, level)
      {
        FilterKeepsPassing(books, InRange(level.value), b);
      }
    } else {
      PrefixIsSubsequence(books, |books|);
      assert books[..|books|] == books;
    }
  }

  /** Skipping the filter for `all` changes nothing: every level covers `all`. */
  lemma AllSkipsNothing(books: seq<Row>)
    ensures FilteredBooks(books, Some("all")) == Filter(books, InRange("all"))
  {
    FilterKeepsAll(books, InRange("all"));
  }
}
