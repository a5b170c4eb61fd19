/**
 * The dialog that lets a signed-in reader replace the cover of one of their own books:
 * the entered URL must not be blank, the stored user must have an email, and only a row
 * with both the book's id and that email is updated.
 */
module UpdateBookCover {
  import opened Wrappers
  import opened Strings
  import opened Seqs
  import opened BookService

  datatype Notice = ErrorNotice(message: string) | SuccessNotice(message: string)

  const EnterUrl := ErrorNotice("Please enter a valid cover URL")
  const SignIn := ErrorNotice("Please sign in to update book covers")
  const NoEmail := ErrorNotice("User email not found. Please sign in again.")
  const NotAllowed := ErrorNotice("You do not have permission to update this book cover")
  const Updated := SuccessNotice("Book cover has been updated successfully")

  /** A URL made of white space only: `coverUrl.trim()` is empty for exactly these (`BlankIsTrimmedEmpty`). */
  predicate Blank(url: string) {
    AllSpace(url)
  }

  /** `!coverUrl.trim()` holds exactly for the blank URLs. */
  lemma BlankIsTrimmedEmpty(url: string)
    ensures Blank(url) <==> Trim(url) == ""
  {
    AllSpaceIsTrimmedEmpty(url);
  }

  /** The row is the book `id` and belongs to `email`. */
  predicate Owns(row: Row, id: string, email: string) {
    row.id == id && row.book.useremail == email
  }

  function OwnedBy(id: string, email: string): Row -> bool {
    (row: Row) => Owns(row, id, email)
  }

  /** `update({ cover_url: url }).eq('id', id).eq('useremail', email)`: only the owner's row changes, and only its cover. */
  function OwnerUpdated(rows: seq<Row>, id: string, email: string, url: string): (r: seq<Row>)
    ensures |r| == |rows|
    ensures forall k :: 0 <= k < |r| ==> r[k].id == rows[k].id && r[k].book == rows[k].book && r[k].createdAt == rows[k].createdAt
    ensures forall k :: 0 <= k < |r| ==>
      (Owns(rows[k], id, email) ==> r[k].coverUrl == Some(url)) && (!Owns(rows[k], id, email) ==> r[k] == rows[k])
  {
    seq(|rows|, k requires 0 <= k < |rows| => if Owns(rows[k], id, email) then rows[k].(coverUrl := Some(url)) else rows[k])
  }

  /** When the book belongs to the reader the update is `updateBookCoverUrl`'s; otherwise nothing changes. */
  lemma OwnerUpdateIsSetCover(rows: seq<Row>, id: string, email: string, url: string)
    ensures (forall k :: 0 <= k < |rows| && rows[k].id == id ==> rows[k].book.useremail == email) ==>
      OwnerUpdated(rows, id, email, url) == SetCover(rows, id, Some(url))
    ensures (forall k :: 0 <= k < |rows| ==> !Owns(rows[k], id, email)) ==> OwnerUpdated(rows, id, email, url) == rows
  {
  }

  /** The update keeps the ids, so they stay unique. */
  lemma OwnerUpdateKeepsIds(rows: seq<Row>, id: string, email: string, url: string)
    requires UniqueIds(rows)
    ensures UniqueIds(OwnerUpdated(rows, id, email, url))
  {
    var r := OwnerUpdated(rows, id, email, url);
    forall i, j | 0 <= i < j < |r|
      ensures r[i].id != r[j].id
    {
      assert r[i].id == rows[i].id && r[j].id == rows[j].id;
    }
  }

  /** `.select()` after the update: the updated rows; empty exactly when no row is the reader's book. */
  function Selected(rows: seq<Row>, id: string, email: string, url: string): (data: seq<Row>)
    ensures forall x :: x in data ==> x.id == id && x.book.useremail == email && x.coverUrl == Some(url)
    ensures data == [] <==> forall k :: 0 <= k < |rows| ==> !Owns(rows[k], id, email)
  {
    var after := OwnerUpdated(rows, id, email, url);
    OwnedRowSelected(after, id, email);
    assert forall k :: 0 <= k < |rows| ==> (Owns(after[k], id, email) <==> Owns(rows[k], id, email));
    Filter(after, OwnedBy(id, email))
  }

  lemma OwnedRowSelected(rows: seq<Row>, id: string, email: string)
    ensures Filter(rows, OwnedBy(id, email)) == [] <==> forall k :: 0 <= k < |rows| ==> !Owns(rows[k], id, email)
  {
    var data := Filter(rows, OwnedBy(id, email));
    if data != [] {
      assert data[0] in rows && Owns(data[0], id, email);
    }
    if exists k :: 0 <= k < |rows| && Owns(rows[k], id, email) {
      var k :| 0 <= k < |rows| && Owns(rows[k], id, email);
      FilterKeepsPassing(rows, OwnedBy(id, email), rows[k]);
    }
  }

  /** The email of the stored user: present when the stored item is truthy, parses, and has a truthy email. */
  function EmailOf(storedUserInfo: Option<string>, parse: string -> Result<Option<string>>): (email: Option<string>)
    ensures email.Some? ==> email.value != ""
    ensures email.Some? <==>
      storedUserInfo.Some? && storedUserInfo.value != "" && parse(storedUserInfo.value).Ok? &&
      parse(storedUserInfo.value).value.Some? && parse(storedUserInfo.value).value.value != ""
  {
    if storedUserInfo.None? || storedUserInfo.value == "" then None
    else
      var user := parse(storedUserInfo.value);
      if user.Err? || user.value.None? || user.value.value == "" then None else user.value
  }

  /**
   * What submitting a non-blank `url` for the book `bookId` ends with: the notice shown and
   * the table's rows. `storedUserInfo` is the `userInfo` item of the local storage; `parse`
   * reads its email (None when it has none) or gives the message of the error parsing threw;
   * `updateError` is the message shown for a failed update.
   */
  function Outcome(rows: seq<Row>, bookId: string, url: string, storedUserInfo: Option<string>,
                   parse: string -> Result<Option<string>>, updateError: Option<string>): (out: (Notice, seq<Row>))
    ensures storedUserInfo.None? || storedUserInfo.value == "" ==> out == (SignIn, rows)
    ensures storedUserInfo.Some? && storedUserInfo.value != "" && parse(storedUserInfo.value).Err? ==>
      out == (ErrorNotice(parse(storedUserInfo.value).error), rows)
    ensures storedUserInfo.Some? && storedUserInfo.value != "" && parse(storedUserInfo.value).Ok? && EmailOf(storedUserInfo, parse).None? ==>
      out == (NoEmail, rows)
    ensures EmailOf(storedUserInfo, parse).Some? && updateError.Some? ==> out == (ErrorNotice(updateError.value), rows)
    ensures EmailOf(storedUserInfo, parse).None? || updateError.Some? ==> out.1 == rows
    ensures out.0 == Updated <==>
      EmailOf(storedUserInfo, parse).Some? && updateError.None? && Selected(rows, bookId, EmailOf(storedUserInfo, parse).value, url) != []
    ensures EmailOf(storedUserInfo, parse).Some? && updateError.None? ==>
      out.1 == OwnerUpdated(rows, bookId, EmailOf(storedUserInfo, parse).value, url) &&
      (Selected(rows, bookId, EmailOf(storedUserInfo, parse).value, url) == [] ==> out == (NotAllowed, rows))
    ensures |out.1| == |rows|
    ensures forall k :: 0 <= k < |rows| && out.1[k] != rows[k] ==>
      EmailOf(storedUserInfo, parse).Some? && Owns(rows[k], bookId, EmailOf(storedUserInfo, parse).value) &&
      out.1[k] == rows[k].(coverUrl := Some(url))
  {
    if storedUserInfo.None? || storedUserInfo.value == "" then (SignIn, rows)
    else
      var user := parse(storedUserInfo.value);
      if user.Err? then (ErrorNotice(user.error), rows)
      else if user.value.None? || user.value.value == "" then (NoEmail, rows)
      else if updateError.Some? then (ErrorNotice(updateError.value), rows)
      else
        var email := user.value.value;
        OwnerUpdateIsSetCover(rows, bookId, email, url);
        (if Selected(rows, bookId, email, url) == [] then NotAllowed else Updated, OwnerUpdated(rows, bookId, email, url))
  }

  /** The outcome keeps the table's ids unique. */
  lemma OutcomeKeepsIds(rows: seq<Row>, bookId: string, url: string, storedUserInfo: Option<string>,
                        parse: string -> Result<Option<string>>, updateError: Option<string>)
    requires UniqueIds(rows)
    ensures UniqueIds(Outcome(rows, bookId, url, storedUserInfo, parse, updateError).1)
  {
    var email := EmailOf(storedUserInfo, parse);
    if email.Some? && updateError.None? {
      OwnerUpdateKeepsIds(rows, bookId, email.value, url);
    }
  }

  /** The dialog's state. */
  class CoverDialog {
    var coverUrl: string
    var isOpen: bool
    var isLoading: bool

    /** The dialog starts closed, idle, with the current cover (or nothing) in its field. */
    constructor(currentCoverUrl: Option<string>)
      ensures coverUrl == currentCoverUrl.GetOr("") && !isOpen && !isLoading
    {
      coverUrl := currentCoverUrl.GetOr("");
      isOpen := false;
      isLoading := false;
    }

    /**
     * `handleUpdateCover()` on the book `bookId`: a blank field is refused before anything
     * else; otherwise the loading flag is raised for the submission and cleared after it,
     * and a successful update closes the dialog. `loading` tells whether the flag was raised.
     */
    method HandleUpdateCover(table: Table, bookId: string, storedUserInfo: Option<string>,
                             parse: string -> Result<Option<string>>, updateError: Option<string>)
      returns (notice: Notice, loading: bool)
      requires table.Valid()
      modifies this, table
      ensures table.Valid() && coverUrl == old(coverUrl)
      ensures loading ==> !isLoading
      ensures !loading ==> isLoading == old(isLoading)
      ensures Blank(coverUrl) ==> notice == EnterUrl && !loading && table.rows == old(table.rows)
      ensures !Blank(coverUrl) ==> loading
      ensures !Blank(coverUrl) ==>
        (notice, table.rows) == Outcome(old(table.rows), bookId, coverUrl, storedUserInfo, parse, updateError)
      ensures isOpen == (if notice == Updated then false else old(isOpen))
    {
      loading := false;
      if Blank(coverUrl) {
        return EnterUrl, loading;
      }
      isLoading, loading := true, true;
      var out := Outcome(table.rows, bookId, coverUrl, storedUserInfo, parse, updateError);
      OutcomeKeepsIds(table.rows, bookId, coverUrl, storedUserInfo, parse, updateError);
      notice := out.0;
      table.rows := out.1;
      if notice == Updated {
        isOpen := false;
      }
      isLoading := false;
    }
  }
}
