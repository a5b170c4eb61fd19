/**
 * The graded-book store: saving a graded book without duplicating one already stored
 * (backfilling its cover when it lacks one), the newest-first listings, lookup by id and
 * the cover update, over a table held as a sequence of rows.
 */
module BookService {
  import opened Wrappers
  import opened Strings
  import opened Seqs
  import OpenLibraryService

  /** The fields a caller supplies for a graded book. */
  datatype NewBook = NewBook(
    useremail: string, bookname: string, author: string, summary: string, languagelevel: string, booklanguage: string)

  /** A row of `graded_books`: the generated id and creation time, the book fields and `cover_url`. */
  datatype Row = Row(id: string, createdAt: int, book: NewBook, coverUrl: Option<string>)

  /** `cover_url` is truthy. */
  predicate HasCover(row: Row) {
    row.coverUrl.Some? && row.coverUrl.value != ""
  }

  /** `s.toLowerCase().trim()`. */
  function Normal(s: string): (r: string)
    ensures Trimmed(r)
  {
    Trim(Lower(s))
  }

  /** Normalising ignores ASCII case. */
  lemma NormalIgnoresCase(s: string)
    ensures Normal(Lower(s)) == Normal(s)
  {
    LowerTwice(s);
  }

  /** Normalising ignores white space around the text. */
  lemma NormalIgnoresPadding(a: string, s: string, b: string)
    requires AllSpace(a) && AllSpace(b)
    ensures Normal(a + s + b) == Normal(s)
  {
    LowerConcat(a + s, b);
    LowerConcat(a, s);
    assert Lower(a) == a;
    assert Lower(b) == b;
    TrimIgnoresPadding(a, Lower(s), b);
  }

  /** A stored row is the same book when its name and its author agree with the caller's once normalised. */
  predicate SameBook(row: Row, book: NewBook) {
    Normal(row.book.bookname) == Normal(book.bookname) && Normal(row.book.author) == Normal(book.author)
  }

  predicate UniqueIds(rows: seq<Row>) {
    forall i, j :: 0 <= i < j < |rows| ==> rows[i].id != rows[j].id
  }

  predicate FreshId(rows: seq<Row>, id: string) {
    forall i :: 0 <= i < |rows| ==> rows[i].id != id
  }

  /** `rows.find(same book)`: the position of the first row that is the same book. */
  function FirstSame(rows: seq<Row>, book: NewBook): (k: Option<nat>)
  {
    FirstWhere(rows, (row: Row) => SameBook(row, book), 0)
  }

  /** The match is the first row that is the same book; there is none when no row is. */
  lemma FirstSameIsFirst(rows: seq<Row>, book: NewBook)
    ensures FirstSame(rows, book).Some? ==>
      FirstSame(rows, book).value < |rows| && SameBook(rows[FirstSame(rows, book).value], book)
    ensures FirstSame(rows, book).Some? ==> forall j :: 0 <= j < FirstSame(rows, book).value ==> !SameBook(rows[j], book)
    ensures FirstSame(rows, book).None? ==> forall j :: 0 <= j < |rows| ==> !SameBook(rows[j], book)
  {
  }

  /**
   * What the database does for one save. `candidate` tells which rows the existence query
   * (`bookname ilike … or author ilike …`) returns; `queryFails`, `updateFails` and
   * `insertFails` tell which requests come back with an error; `encode` and `fetch` serve
   * the cover lookup.
   */
  datatype Backend = Backend(
    candidate: Row -> bool, queryFails: bool, updateFails: bool, insertFails: bool,
    encode: string -> string, fetch: (string, nat) -> OpenLibraryService.Reply)

  /** The cover found on Open Library for a book name and author. */
  function LookUp(bookname: string, author: string, db: Backend): Option<string> {
    OpenLibraryService.CoverFor(bookname, Some(author), db.encode, db.fetch)
  }

  /** `update({cover_url}).eq('id', id)`: the cover of every row with that id is set, and nothing else changes. */
  function SetCover(rows: seq<Row>, id: string, cover: Option<string>): (r: seq<Row>)
    ensures |r| == |rows|
    ensures forall k :: 0 <= k < |r| ==> r[k] == if rows[k].id == id then rows[k].(coverUrl := cover) else rows[k]
  {
    seq(|rows|, k requires 0 <= k < |rows| => if rows[k].id == id then rows[k].(coverUrl := cover) else rows[k])
  }

  /** With unique ids, setting the cover by id changes exactly one row. */
  lemma SetCoverOne(rows: seq<Row>, k: nat, cover: Option<string>)
    requires UniqueIds(rows) && k < |rows|
    ensures SetCover(rows, rows[k].id, cover) == rows[k := rows[k].(coverUrl := cover)]
  {
    var r := SetCover(rows, rows[k].id, cover);
    forall j | 0 <= j < |rows| && j != k
      ensures r[j] == rows[j]
    {
      if j < k {
        assert rows[j].id != rows[k].id;
      } else {
        assert rows[k].id != rows[j].id;
      }
    }
  }

  /** Setting covers keeps the ids, so it keeps them unique. */
  lemma SetCoverKeepsIds(rows: seq<Row>, id: string, cover: Option<string>)
    requires UniqueIds(rows)
    ensures UniqueIds(SetCover(rows, id, cover))
  {
    var r := SetCover(rows, id, cover);
    assert forall k :: 0 <= k < |r| ==> r[k].id == rows[k].id;
  }

  /**
   * `saveGradedBook(book)` on a table holding `rows`: the result (the stored or the new row,
   * or the re-thrown error) and the table afterwards. `newId` and `now` are what the database
   * generates for an inserted row.
   */
  function Saved(rows: seq<Row>, book: NewBook, newId: string, now: int, db: Backend): (out: (Result<Row>, seq<Row>))
    ensures out.0.Err? ==> out.1 == rows
  {
    if db.queryFails then (Err("existence query failed"), rows)
    else
      var existing := Filter(rows, db.candidate);
      var m := FirstSame(existing, book);
      if m.Some? then
        var found := existing[m.value];
        if HasCover(found) then (Ok(found), rows)
        else
          var cover := LookUp(found.book.bookname, found.book.author, db);
          if cover.Some? && !db.updateFails then (Ok(found.(coverUrl := cover)), SetCover(rows, found.id, cover))
          else (Ok(found), rows)
      else
        var cover := LookUp(book.bookname, book.author, db);
        if db.insertFails then (Err("insert failed"), rows)
        else
          var row := Row(newId, now, book, cover);
          (Ok(row), rows + [row])
  }

  /** A failing existence query is re-thrown before anything is written. */
  lemma SavedQueryFails(rows: seq<Row>, book: NewBook, newId: string, now: int, db: Backend)
    requires db.queryFails
    ensures Saved(rows, book, newId, now, db).0.Err? && Saved(rows, book, newId, now, db).1 == rows
  {
  }

  /**
   * When the existence query returns a stored copy of the book, nothing is inserted: the
   * first such row is the result, and the table changes only when that row had no cover
   * and one was found, by setting that cover on the row with its id.
   */
  lemma SavedExisting(rows: seq<Row>, book: NewBook, newId: string, now: int, db: Backend)
    requires !db.queryFails && FirstSame(Filter(rows, db.candidate), book).Some?
    ensures var out := Saved(rows, book, newId, now, db);
      var found := Filter(rows, db.candidate)[FirstSame(Filter(rows, db.candidate), book).value];
      found in rows && SameBook(found, book) && out.0.Ok? && out.0.value.(coverUrl := found.coverUrl) == found &&
      (HasCover(found) ==> out == (Ok(found), rows)) &&
      (out.1 == rows ||
       (!HasCover(found) && out.0.value.coverUrl == LookUp(found.book.bookname, found.book.author, db) &&
        out.0.value.coverUrl.Some? && out.1 == SetCover(rows, found.id, out.0.value.coverUrl)))
  {
    var existing := Filter(rows, db.candidate);
    var found := existing[FirstSame(existing, book).value];
    assert found in rows;
  }

  /** Without a stored copy, exactly one row is added at the end: the caller's fields as given, the new id and the cover found. */
  lemma SavedNew(rows: seq<Row>, book: NewBook, newId: string, now: int, db: Backend)
    requires !db.queryFails && FirstSame(Filter(rows, db.candidate), book).None? && !db.insertFails
    ensures var out := Saved(rows, book, newId, now, db);
      out.0.Ok? && |out.1| == |rows| + 1 && out.1[..|rows|] == rows && out.1[|rows|] == out.0.value &&
      out.0.value.book == book && out.0.value.id == newId &&
      out.0.value.coverUrl == LookUp(book.bookname, book.author, db)
  {
    var out := Saved(rows, book, newId, now, db);
    assert out.1[..|rows|] == rows;
  }

  /** Saving keeps the ids unique when the generated id is fresh. */
  lemma SavedKeepsIds(rows: seq<Row>, book: NewBook, newId: string, now: int, db: Backend)
    requires UniqueIds(rows) && FreshId(rows, newId)
    ensures UniqueIds(Saved(rows, book, newId, now, db).1)
  {
    if !db.queryFails {
      var existing := Filter(rows, db.candidate);
      var m := FirstSame(existing, book);
      if m.Some? {
        var found := existing[m.value];
        SetCoverKeepsIds(rows, found.id, LookUp(found.book.bookname, found.book.author, db));
      } else {
        AppendFreshKeepsIds(rows, Row(newId, now, book, LookUp(book.bookname, book.author, db)));
      }
    }
  }

  lemma AppendFreshKeepsIds(rows: seq<Row>, row: Row)
    requires UniqueIds(rows) && FreshId(rows, row.id)
    ensures UniqueIds(rows + [row])
  {
    var after := rows + [row];
    forall i, j | 0 <= i < j < |after|
      ensures after[i].id != after[j].id
    {
      assert after[i] == rows[i];
    }
  }

  /**
   * Saving a book a second time inserts nothing, as long as the existence query returns
   * the row the first save inserted.
   */
  lemma SavedTwice(rows: seq<Row>, book: NewBook, id1: string, now1: int, db1: Backend, id2: string, now2: int, db2: Backend)
    requires !db1.queryFails && FirstSame(Filter(rows, db1.candidate), book).None? && !db1.insertFails
    requires !db2.queryFails && db2.candidate(Saved(rows, book, id1, now1, db1).0.value)
    ensures var once := Saved(rows, book, id1, now1, db1).1;
      |Saved(once, book, id2, now2, db2).1| == |once| && Saved(once, book, id2, now2, db2).0.Ok?
  {
    SavedNew(rows, book, id1, now1, db1);
    var out := Saved(rows, book, id1, now1, db1);
    var once := out.1;
    var row := out.0.value;
    assert once[|rows|] == row;
    SavedStoredCopy(once, book, id2, now2, db2, row);
  }

  /** A save whose existence query returns a stored copy of the book keeps the number of rows. */
  lemma SavedStoredCopy(rows: seq<Row>, book: NewBook, newId: string, now: int, db: Backend, row: Row)
    requires !db.queryFails && row in rows && db.candidate(row) && row.book == book
    ensures |Saved(rows, book, newId, now, db).1| == |rows| && Saved(rows, book, newId, now, db).0.Ok?
  {
    FilterKeepsPassing(rows, db.candidate, row);
    var existing := Filter(rows, db.candidate);
    var k :| 0 <= k < |existing| && existing[k] == row;
    assert SameBook(existing[k], book);
    assert FirstSame(existing, book).Some?;
    SavedExisting(rows, book, newId, now, db);
  }

  /** The rows are in `order('created_at', { ascending: false })`. */
  predicate NewestFirst(rows: seq<Row>) {
    forall i, j :: 0 <= i < j < |rows| ==> rows[i].createdAt >= rows[j].createdAt
  }

  /** `row` placed into a list before the first row that is not newer. */
  function InsertByDate(row: Row, sorted: seq<Row>): (r: seq<Row>)
    ensures multiset(r) == multiset(sorted) + multiset{row}
    ensures |r| == |sorted| + 1 && (r[0] == row || (sorted != [] && r[0] == sorted[0]))
    decreases |sorted|
  {
    if sorted == [] || row.createdAt >= sorted[0].createdAt then [row] + sorted
    else
      assert sorted == [sorted[0]] + sorted[1..];
      [sorted[0]] + InsertByDate(row, sorted[1..])
  }

  /** Placing a row into a newest-first list keeps it newest first. */
  lemma {:induction false} InsertByDateSorted(row: Row, sorted: seq<Row>)
    requires NewestFirst(sorted)
    ensures NewestFirst(InsertByDate(row, sorted))
    decreases |sorted|
  {
    if sorted != [] && row.createdAt < sorted[0].createdAt {
      var tail := sorted[1..];
      var rest := InsertByDate(row, tail);
      InsertByDateSorted(row, tail);
      assert rest[0].createdAt <= sorted[0].createdAt by {
        if rest[0] != row {
          assert rest[0] == tail[0] == sorted[1];
        }
      }
      var r := [sorted[0]] + rest;
      forall i, j | 0 <= i < j < |r|
        ensures r[i].createdAt >= r[j].createdAt
      {
        if i == 0 {
          assert r[j] == rest[j - 1];
          assert rest[0].createdAt >= rest[j - 1].createdAt;
        } else {
          assert r[i] == rest[i - 1] && r[j] == rest[j - 1];
        }
      }
    }
  }

  /** The rows ordered newest first. */
  function Newest(rows: seq<Row>): (r: seq<Row>)
    ensures NewestFirst(r) && multiset(r) == multiset(rows)
    decreases |rows|
  {
    if rows == [] then []
    else
      assert rows == [rows[0]] + rows[1..];
      var rest := Newest(rows[1..]);
      InsertByDateSorted(rows[0], rest);
      InsertByDate(rows[0], rest)
  }

  /** `ilike '%query%'` on one field: the query occurs in it, letter case aside. */
  predicate Mentions(field: string, query: string) {
    Contains(Lower(field), Lower(query))
  }

  /** The search matches a row by name, author or language level. */
  predicate Matches(row: Row, query: string) {
    Mentions(row.book.bookname, query) || Mentions(row.book.author, query) || Mentions(row.book.languagelevel, query)
  }

  /** A newest-first listing holds exactly the rows of `rows` that pass `keep`. */
  lemma ListingMembers(listing: seq<Row>, rows: seq<Row>, keep: Row -> bool)
    requires multiset(listing) == multiset(Filter(rows, keep))
    ensures forall x :: x in listing <==> x in rows && keep(x)
  {
    forall x
      ensures x in listing <==> x in rows && keep(x)
    {
      assert x in listing <==> x in multiset(Filter(rows, keep));
      if x in rows && keep(x) {
        FilterKeepsPassing(rows, keep, x);
      }
    }
  }

  /** The `graded_books` table. */
  class Table {
    var rows: seq<Row>

    ghost predicate Valid()
      reads this
    {
      UniqueIds(rows)
    }

    constructor(rows: seq<Row>)
      requires UniqueIds(rows)
      ensures Valid() && this.rows == rows
    {
      this.rows := rows;
    }

    /** `getAllBooks()`: every row, newest first; a failing query is thrown. */
    function GetAllBooks(fails: bool): (r: Result<seq<Row>>)
      reads this
      ensures r.Err? <==> fails
      ensures r.Ok? ==> NewestFirst(r.value) && multiset(r.value) == multiset(rows)
    {
      if fails then Err("query failed") else Ok(Newest(rows))
    }

    /** `getUserBooks(email)`: the rows whose `useremail` is `email`, newest first. */
    function GetUserBooks(email: string, fails: bool): (r: Result<seq<Row>>)
      reads this
      ensures r.Err? <==> fails
      ensures r.Ok? ==> NewestFirst(r.value) && multiset(r.value) == multiset(Filter(rows, (x: Row) => x.book.useremail == email))
    {
      if fails then Err("query failed") else Ok(Newest(Filter(rows, (x: Row) => x.book.useremail == email)))
    }

    /** `searchBooks(query)`: the rows whose name, author or level contains the query, letter case aside, newest first. */
    function SearchBooks(query: string, fails: bool): (r: Result<seq<Row>>)
      reads this
      ensures r.Err? <==> fails
      ensures r.Ok? ==> NewestFirst(r.value) && multiset(r.value) == multiset(Filter(rows, (x: Row) => Matches(x, query)))
    {
      if fails then Err("query failed") else Ok(Newest(Filter(rows, (x: Row) => Matches(x, query))))
    }

    /** `.eq('id', id).single()`: the one row with that id; none or several is an error. */
    function RowById(id: string): (r: Result<Row>)
      reads this
      ensures r.Ok? ==> r.value in rows && r.value.id == id
      ensures Valid() && (exists k :: 0 <= k < |rows| && rows[k].id == id) ==> r.Ok?
    {
      var matching := WithId(rows, id);
      if |matching| == 1 then Ok(matching[0])
      else
        assert Valid() && (exists k :: 0 <= k < |rows| && rows[k].id == id) ==> |matching| == 1 by {
          if Valid() && exists k :: 0 <= k < |rows| && rows[k].id == id {
            var k :| 0 <= k < |rows| && rows[k].id == id;
            SingleMatch(rows, k);
          }
        }
        Err("JSON object requested, multiple (or no) rows returned")
    }

    /** `getBookByIdSupabase(id)`: the row with that id, or the thrown error. */
    function GetBookByIdSupabase(id: string, fails: bool): (r: Result<Row>)
      reads this
      ensures r.Ok? ==> !fails && r.value in rows && r.value.id == id
      ensures !fails && Valid() && (exists k :: 0 <= k < |rows| && rows[k].id == id) ==> r.Ok?
    {
      if fails then Err("query failed") else RowById(id)
    }

    /** `getBookById(id)`: the row with that id, or null instead of any error. */
    function GetBookById(id: string, fails: bool): (r: Option<Row>)
      reads this
      ensures r.Some? ==> !fails && r.value in rows && r.value.id == id
      ensures !fails && Valid() && (exists k :: 0 <= k < |rows| && rows[k].id == id) ==> r.Some?
    {
      var found := GetBookByIdSupabase(id, fails);
      if found.Ok? then Some(found.value) else None
    }

    /**
     * `updateBookCoverUrl(bookId, coverUrl)`: `cover_url` of the row with that id is set
     * (null allowed) and that row returned; no such row is an error and changes nothing.
     */
    method UpdateBookCoverUrl(bookId: string, coverUrl: Option<string>, fails: bool) returns (r: Result<Row>)
      requires Valid()
      modifies this
      ensures Valid()
      ensures fails ==> r.Err? && rows == old(rows)
      ensures !fails ==> rows == SetCover(old(rows), bookId, coverUrl)
      ensures r.Ok? <==> !fails && exists k :: 0 <= k < |old(rows)| && old(rows)[k].id == bookId
      ensures r.Ok? ==> r.value in rows && r.value.id == bookId && r.value.coverUrl == coverUrl
    {
      if fails {
        return Err("update failed");
      }
      SetCoverKeepsIds(rows, bookId, coverUrl);
      rows := SetCover(rows, bookId, coverUrl);
      r := RowById(bookId);
      if r.Ok? {
        var k :| 0 <= k < |rows| && rows[k] == r.value;
      }
    }

    /**
     * `saveGradedBook(book)`. The stored copy of the book, when the existence query returns
     * one, is the result, with its missing cover looked up and set; otherwise the book is
     * inserted with the cover looked up. `newId` and `now` are the database's values for
     * an inserted row.
     */
    method SaveGradedBook(book: NewBook, newId: string, now: int, db: Backend) returns (r: Result<Row>)
      requires Valid() && FreshId(rows, newId)
      modifies this
      ensures Valid()
      ensures (r, rows) == Saved(old(rows), book, newId, now, db)
    {
      SavedKeepsIds(rows, book, newId, now, db);
      if db.queryFails {
        return Err("existence query failed");
      }
      var existingBooks := Filter(rows, db.candidate);
      var exactMatch := FirstSame(existingBooks, book);
      if exactMatch.Some? {
        var found := existingBooks[exactMatch.value];
        if !HasCover(found) {
          var coverUrl, _, _ := OpenLibraryService.FetchBookCover(found.book.bookname, Some(found.book.author), db.encode, db.fetch);
          if coverUrl.Some? && !db.updateFails {
            rows := SetCover(rows, found.id, coverUrl);
            return Ok(found.(coverUrl := coverUrl));
          }
        }
        return Ok(found);
      }
      var coverUrl, _, _ := OpenLibraryService.FetchBookCover(book.bookname, Some(book.author), db.encode, db.fetch);
      if db.insertFails {
        return Err("insert failed");
      }
      var row := Row(newId, now, book, coverUrl);
      rows := rows + [row];
      r := Ok(row);
    }
  }

  /** `.eq('id', id)`: the rows with that id, in table order. */
  function WithId(rows: seq<Row>, id: string): (r: seq<Row>)
    ensures forall x :: x in r ==> x in rows && x.id == id
    decreases |rows|
  {
    if rows == [] then [] else (if rows[0].id == id then [rows[0]] else []) + WithId(rows[1..], id)
  }

  /** With unique ids, a row's id picks out that row alone. */
  lemma {:induction false} SingleMatch(rows: seq<Row>, k: nat)
    requires UniqueIds(rows) && k < |rows|
    ensures WithId(rows, rows[k].id) == [rows[k]]
    decreases |rows|
  {
    var tail := rows[1..];
    assert UniqueIds(tail) by {
      assert forall i :: 0 <= i < |tail| ==> tail[i] == rows[i + 1];
    }
    if k == 0 {
      NoneMatch(tail, rows[0].id);
    } else {
      assert rows[0].id != rows[k].id;
      assert tail[k - 1] == rows[k];
      SingleMatch(tail, k - 1);
    }
  }

  lemma {:induction false} NoneMatch(rows: seq<Row>, id: string)
    requires forall i :: 0 <= i < |rows| ==> rows[i].id != id
    ensures WithId(rows, id) == []
    decreases |rows|
  {
    if rows != [] {
      NoneMatch(rows[1..], id);
    }
  }
}
