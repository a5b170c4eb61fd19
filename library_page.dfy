/**
 * The library page: every graded book, fetched once, shown under the level chosen in the
 * filter, with a details panel for the selected book.
 */
module LibraryPage {
  import opened Wrappers
  import opened BookService
  import opened BookListing

  /** What the page's content area shows. */
  datatype View = Loading | NoBooks | Grid(books: seq<Row>)

  class Library {
    var books: seq<Row>
    var selected: Option<Row>
    var loading: bool

    /** The page starts with no books, nothing selected, loading. */
    constructor()
      ensures books == [] && selected.None? && loading
    {
      books, selected, loading := [], None, true;
    }

    /** `fetchBooks()`: the rows of `getAllBooks()`; a failure keeps the list; loading ends either way. */
    method FetchBooks(table: Table, fails: bool)
      modifies this
      ensures !loading && selected == old(selected)
      ensures fails ==> books == old(books)
      ensures !fails ==> books == table.GetAllBooks(false).value
      ensures !fails ==> NewestFirst(books) && multiset(books) == multiset(table.rows)
    {
      var data := table.GetAllBooks(fails);
      if data.Ok? {
        books := data.value;
      }
      loading := false;
    }

    /** `handleBookClick(book)`. */
    method HandleBookClick(book: Row)
      modifies this
      ensures selected == Some(book) && books == old(books) && loading == old(loading)
    {
      selected := Some(book);
    }

    /** The content area under the level parameter `level`. */
    function Content(level: Option<string>): (v: View)
      reads this
      ensures loading <==> v == Loading
      ensures v == NoBooks <==> !loading && FilteredBooks(books, level) == []
      ensures v.Grid? ==> v.books == FilteredBooks(books, level) && v.books != []
    {
      if loading then Loading
      else if FilteredBooks(books, level) == [] then NoBooks
      else Grid(FilteredBooks(books, level))
    }
  }
}
