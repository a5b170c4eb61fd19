/**
 * The "my books" page: the signed-in reader's own graded books, fetched only once the
 * stored user has an email, shown under the level chosen in the filter.
 */
module MyBooksPage {
  import opened Wrappers
  import opened BookService
  import opened BookListing
  import opened Seqs

  /** The stored user information; only its email matters here. */
  datatype UserInfo = UserInfo(email: Option<string>)

  /** What the page shows. */
  datatype View = SignInMessage | Loading | NoBooks | Grid(books: seq<Row>)

  /** `user?.email` is truthy. */
  predicate HasEmail(user: Option<UserInfo>) {
    user.Some? && user.value.email.Some? && user.value.email.value != ""
  }

  class MyBooks {
    var books: seq<Row>
    var selected: Option<Row>
    var loading: bool
    var user: Option<UserInfo>

    /** The page starts with no user, no books, loading. */
    constructor()
      ensures books == [] && selected.None? && loading && user.None?
    {
      books, selected, loading, user := [], None, true, None;
    }

    /**
     * The first effect: the `userInfo` item of the local storage, when truthy, is parsed into
     * the user; `parse` gives None for a stored `null`.
     */
    method LoadUser(storedUserInfo: Option<string>, parse: string -> Option<UserInfo>)
      modifies this
      ensures storedUserInfo.Some? && storedUserInfo.value != "" ==> user == parse(storedUserInfo.value)
      ensures storedUserInfo.None? || storedUserInfo.value == "" ==> user == old(user)
      ensures books == old(books) && selected == old(selected) && loading == old(loading)
    {
      if storedUserInfo.Some? && storedUserInfo.value != "" {
        user := parse(storedUserInfo.value);
      }
    }

    /**
     * `fetchBooks()`: nothing at all without an email, not even the end of loading;
     * otherwise the reader's rows from `getUserBooks(email)`, keeping the list on failure.
     */
    method FetchBooks(table: Table, fails: bool)
      modifies this
      ensures user == old(user) && selected == old(selected)
      ensures !HasEmail(user) ==> books == old(books) && loading == old(loading)
      ensures HasEmail(user) ==> !loading
      ensures HasEmail(user) && fails ==> books == old(books)
      ensures HasEmail(user) && !fails ==> books == table.GetUserBooks(user.value.email.value, false).value
      ensures HasEmail(user) && !fails ==> forall b :: b in books ==> b in table.rows && b.book.useremail == user.value.email.value
    {
      if !HasEmail(user) {
        return;
      }
      var email := user.value.email.value;
      loading := true;
      var data := table.GetUserBooks(email, fails);
      if data.Ok? {
        books := data.value;
        ListingMembers(books, table.rows, (x: Row) => x.book.useremail == email);
      }
      loading := false;
    }

    /** `handleBookClick(book)`. */
    method HandleBookClick(book: Row)
      modifies this
      ensures selected == Some(book) && books == old(books) && loading == old(loading) && user == old(user)
    {
      selected := Some(book);
    }

    /** What the page shows under the level parameter `level`: without a user, only a sign-in message. */
    function Content(level: Option<string>): (v: View)
      reads this
      ensures user.None? <==> v == SignInMessage
      ensures user.Some? ==> (loading <==> v == Loading)
      ensures v == NoBooks <==> user.Some? && !loading && FilteredBooks(books, level) == []
      ensures v.Grid? ==> v.books == FilteredBooks(books, level) && v.books != []
    {
      if user.None? then SignInMessage
      else if loading then Loading
      else if FilteredBooks(books, level) == [] then NoBooks
      else Grid(FilteredBooks(books, level))
    }
  }

  /**
   * A reader whose stored information has no email never leaves the loading state: the
   * page starts loading and the fetch returns before clearing it.
   */
  method LoadingWithoutEmail(storedUserInfo: string, parse: string -> Option<UserInfo>, table: Table, fails: bool, level: Option<string>)
      returns (v: View)
    requires storedUserInfo != "" && parse(storedUserInfo).Some? && !HasEmail(parse(storedUserInfo))
    ensures v == Loading
  {
    var page := new MyBooks();
    page.LoadUser(Some(storedUserInfo), parse);
    page.FetchBooks(table, fails);
    v := page.Content(level);
  }
}
