/**
 * The Open Library cover lookup used when a graded book is saved: up to three search
 * requests for the title and author, one second apart, returning the large cover image
 * of the first result that has one.
 */
module OpenLibraryService {
  import opened Wrappers
  import opened Strings

  const MaxRetries := 3
  /** Milliseconds waited between two attempts. */
  const RetryDelay := 1000

  /** A search result: its `cover_i`, when present. */
  datatype Doc = Doc(coverId: Option<int>)

  /** One search request: it failed (a non-OK status or a thrown error), or it answered with `docs`, when present. */
  datatype Reply = Failed | Answered(docs: Option<seq<Doc>>)

  /** The search text: the title, a space and the author (or nothing), trimmed; the Google Books lookup builds the same one. */
  function Query(title: string, author: Option<string>): (q: string)
    ensures Trimmed(q)
  {
    Trim(title + " " + author.GetOr(""))
  }

  /** The search request for `query`, percent-encoded by `encode` (`encodeURIComponent`). */
  function SearchUrl(query: string, encode: string -> string): string {
    SearchBase + encode(query) + SearchFields
  }

  const SearchBase := "https://openlibrary.org/search.json?q="
  const SearchFields := "&fields=key,cover_i"
  const CoverBase := "https://covers.openlibrary.org/b/id/"

  /** The large cover image of cover `id`. */
  function CoverUrl(id: int): (url: string)
    ensures StartsWith(url, CoverBase) && EndsWith(url, "-L.jpg")
  {
    CoverBase + IntText(id) + "-L.jpg"
  }

  /** The cover a reply offers: a `cover_i` other than 0 on its first result. */
  function CoverIn(reply: Reply): (id: Option<int>)
    ensures id.Some? <==>
      reply.Answered? && reply.docs.Some? && |reply.docs.value| > 0 &&
      reply.docs.value[0].coverId.Some? && reply.docs.value[0].coverId.value != 0
    ensures id.Some? ==> id == reply.docs.value[0].coverId
  {
    if reply.Answered? && reply.docs.Some? && |reply.docs.value| > 0 then
      var c := reply.docs.value[0].coverId;
      if c.Some? && c.value != 0 then c else None
    else None
  }

  /** The first attempt, from `from` on, whose reply offers a cover. */
  function FirstCover(fetch: (string, nat) -> Reply, url: string, from: nat): (hit: Option<nat>)
    requires from <= MaxRetries
    ensures hit.Some? ==> from <= hit.value < MaxRetries && CoverIn(fetch(url, hit.value)).Some?
    ensures hit.Some? ==> forall a :: from <= a < hit.value ==> CoverIn(fetch(url, a)).None?
    ensures hit.None? ==> forall a :: from <= a < MaxRetries ==> CoverIn(fetch(url, a)).None?
    decreases MaxRetries - from
  {
    if from == MaxRetries then None
    else if CoverIn(fetch(url, from)).Some? then Some(from)
    else FirstCover(fetch, url, from + 1)
  }

  /** The cover of the first of three replies to `url` that offers one, if any. */
  function CoverAt(fetch: (string, nat) -> Reply, url: string): (cover: Option<string>)
    ensures cover.Some? <==> exists a :: 0 <= a < MaxRetries && CoverIn(fetch(url, a)).Some?
    ensures cover.Some? ==>
      exists a :: 0 <= a < MaxRetries && CoverIn(fetch(url, a)).Some? &&
        cover == Some(CoverUrl(CoverIn(fetch(url, a)).value)) &&
        (forall b :: 0 <= b < a ==> CoverIn(fetch(url, b)).None?)
  {
    var hit := FirstCover(fetch, url, 0);
    if hit.Some? then Some(CoverUrl(CoverIn(fetch(url, hit.value)).value)) else None
  }

  /**
   * The cover found for `title` and `author` when `fetch(url, a)` is the reply to attempt
   * `a`: the cover of the first of the three attempts that offers one, if any.
   */
  function CoverFor(title: string, author: Option<string>, encode: string -> string, fetch: (string, nat) -> Reply): Option<string>
  {
    CoverAt(fetch, SearchUrl(Query(title, author), encode))
  }

  /**
   * The retry loop of `fetchBookCover` for its search request `url`: the requests stop at
   * the first attempt that finds a cover; after three attempts without one the result is
   * None. `attempts` counts the requests and `delays` the waits between them.
   */
  method FetchFrom(url: string, fetch: (string, nat) -> Reply) returns (cover: Option<string>, attempts: nat, delays: nat)
    ensures cover == CoverAt(fetch, url)
    ensures var hit := FirstCover(fetch, url, 0);
      attempts == (if hit.Some? then hit.value + 1 else MaxRetries)
    ensures 1 <= attempts <= MaxRetries && delays == attempts - 1
  {
    attempts, delays := 0, 0;
    for attempt := 0 to MaxRetries
      invariant attempts == attempt && delays == (if attempt < MaxRetries then attempt else MaxRetries - 1)
      invariant FirstCover(fetch, url, 0) == FirstCover(fetch, url, attempt)
    {
      var reply := fetch(url, attempt);
      attempts := attempts + 1;
      if reply.Answered? && reply.docs.Some? && |reply.docs.value| > 0 {
        var coverId := reply.docs.value[0].coverId;
        if coverId.Some? && coverId.value != 0 {
          return Some(CoverUrl(coverId.value)), attempts, delays;
        }
      }
      if attempt < MaxRetries - 1 {
        delays := delays + 1;
      }
    }
    cover := None;
  }

  /**
   * `fetchBookCover(title, author)`: the retry loop for the search of the trimmed title and
   * author (every attempt makes the same request).
   */
  method FetchBookCover(title: string, author: Option<string>, encode: string -> string, fetch: (string, nat) -> Reply)
    returns (cover: Option<string>, attempts: nat, delays: nat)
    ensures cover == CoverFor(title, author, encode, fetch)
    ensures var hit := FirstCover(fetch, SearchUrl(Query(title, author), encode), 0);
      attempts == (if hit.Some? then hit.value + 1 else MaxRetries)
    ensures 1 <= attempts <= MaxRetries && delays == attempts - 1
  {
    var query := Query(title, author);
    cover, attempts, delays := FetchFrom(SearchUrl(query, encode), fetch);
  }
}
