/**
 * The Google Books cover lookup: up to three volume searches for the title and author,
 * one second apart, returning the thumbnail of the first result that has one, moved to
 * HTTPS and without its zoom parameter.
 */
module GoogleBooksService {
  import opened Wrappers
  import opened Strings
  import OpenLibraryService

  const MaxRetries := 3
  /** Milliseconds waited between two attempts. */
  const RetryDelay := 1000

  /** A volume found: `volumeInfo.imageLinks.thumbnail`, None when any part of that chain is missing. */
  datatype Item = Item(thumbnail: Option<string>)

  /** One search request: it failed (a non-OK status or a thrown error), or it answered with `items`, when present. */
  datatype Reply = Failed | Answered(items: Option<seq<Item>>)

  /** The volume search for `query`; an unset API key is rendered as `undefined` by the template string. */
  function SearchUrl(query: string, apiKey: Option<string>, encode: string -> string): string {
    SearchBase + encode(query) + "&key=" + apiKey.GetOr("undefined")
  }

  const SearchBase := "https://www.googleapis.com/books/v1/volumes?q="

  /** The thumbnail a reply offers: a non-empty one on its first item. */
  function ThumbnailIn(reply: Reply): (t: Option<string>)
    ensures t.Some? <==>
      reply.Answered? && reply.items.Some? && |reply.items.value| > 0 &&
      reply.items.value[0].thumbnail.Some? && reply.items.value[0].thumbnail.value != ""
    ensures t.Some? ==> t == reply.items.value[0].thumbnail
  {
    if reply.Answered? && reply.items.Some? && |reply.items.value| > 0 then
      var t := reply.items.value[0].thumbnail;
      if t.Some? && t.value != "" then t else None
    else None
  }

  /** The cover address made of a thumbnail: the first `http://` becomes `https://`, and the first `&zoom=1` goes. */
  function Rewritten(thumbnail: string): string {
    ReplaceFirst(ReplaceFirst(thumbnail, "http://", "https://"), "&zoom=1", "")
  }

  /** A plain HTTP thumbnail becomes the same address over HTTPS, with its zoom parameter removed. */
  lemma RewrittenHttp(rest: string)
    ensures Rewritten("http://" + rest) == "https://" + ReplaceFirst(rest, "&zoom=1", "")
  {
    ReplaceFirstAtStart("http://", rest, "https://");
    ReplaceFirstAfterPrefix("https://", rest, "&zoom=1", "");
  }

  /** The first attempt, from `from` on, whose reply offers a thumbnail. */
  function FirstThumbnail(fetch: (string, nat) -> Reply, url: string, from: nat): (hit: Option<nat>)
    requires from <= MaxRetries
    ensures hit.Some? ==> from <= hit.value < MaxRetries && ThumbnailIn(fetch(url, hit.value)).Some?
    ensures hit.Some? ==> forall a :: from <= a < hit.value ==> ThumbnailIn(fetch(url, a)).None?
    ensures hit.None? ==> forall a :: from <= a < MaxRetries ==> ThumbnailIn(fetch(url, a)).None?
    decreases MaxRetries - from
  {
    if from == MaxRetries then None
    else if ThumbnailIn(fetch(url, from)).Some? then Some(from)
    else FirstThumbnail(fetch, url, from + 1)
  }

  /** The rewritten thumbnail of the first of three replies to `url` that offers one, if any. */
  function CoverAt(fetch: (string, nat) -> Reply, url: string): (cover: Option<string>)
    ensures cover.Some? <==> exists a :: 0 <= a < MaxRetries && ThumbnailIn(fetch(url, a)).Some?
    ensures cover.Some? ==>
      exists a :: 0 <= a < MaxRetries && ThumbnailIn(fetch(url, a)).Some? &&
        cover == Some(Rewritten(ThumbnailIn(fetch(url, a)).value)) &&
        (forall b :: 0 <= b < a ==> ThumbnailIn(fetch(url, b)).None?)
  {
    var hit := FirstThumbnail(fetch, url, 0);
    if hit.Some? then Some(Rewritten(ThumbnailIn(fetch(url, hit.value)).value)) else None
  }

  /**
   * The cover found for `title` and `author` when `fetch(url, a)` is the reply to attempt
   * `a`: the rewritten thumbnail of the first of the three attempts that offers one, if any.
   */
  function CoverFor(title: string, author: Option<string>, apiKey: Option<string>, encode: string -> string, fetch: (string, nat) -> Reply): Option<string>
  {
    CoverAt(fetch, SearchUrl(OpenLibraryService.Query(title, author), apiKey, encode))
  }

  /**
   * The retry loop of `fetchBookCover` for its search request `url`: the requests stop at
   * the first attempt that finds a thumbnail; after three attempts without one the result
   * is None. `attempts` counts the requests and `delays` the waits between them.
   */
  method FetchFrom(url: string, fetch: (string, nat) -> Reply) returns (cover: Option<string>, attempts: nat, delays: nat)
    ensures cover == CoverAt(fetch, url)
    ensures var hit := FirstThumbnail(fetch, url, 0);
      attempts == (if hit.Some? then hit.value + 1 else MaxRetries)
    ensures 1 <= attempts <= MaxRetries && delays == attempts - 1
  {
    attempts, delays := 0, 0;
    for attempt := 0 to MaxRetries
      invariant attempts == attempt && delays == (if attempt < MaxRetries then attempt else MaxRetries - 1)
      invariant FirstThumbnail(fetch, url, 0) == FirstThumbnail(fetch, url, attempt)
    {
      var reply := fetch(url, attempt);
      attempts := attempts + 1;
      if reply.Answered? && reply.items.Some? && |reply.items.value| > 0 {
        var thumbnail := reply.items.value[0].thumbnail;
        if thumbnail.Some? && thumbnail.value != "" {
          var coverUrl := ReplaceFirst(ReplaceFirst(thumbnail.value, "http://", "https://"), "&zoom=1", "");
          return Some(coverUrl), attempts, delays;
        }
      }
      if attempt < MaxRetries - 1 {
        delays := delays + 1;
      }
    }
    cover := None;
  }

  /**
   * `fetchBookCover(title, author)`: the retry loop for the search of the trimmed title and
   * author (every attempt makes the same request).
   */
  method FetchBookCover(title: string, author: Option<string>, apiKey: Option<string>, encode: string -> string, fetch: (string, nat) -> Reply)
    returns (cover: Option<string>, attempts: nat, delays: nat)
    ensures cover == CoverFor(title, author, apiKey, encode, fetch)
    ensures var hit := FirstThumbnail(fetch, SearchUrl(OpenLibraryService.Query(title, author), apiKey, encode), 0);
      attempts == (if hit.Some? then hit.value + 1 else MaxRetries)
    ensures 1 <= attempts <= MaxRetries && delays == attempts - 1
  {
    var query := OpenLibraryService.Query(title, author);
    cover, attempts, delays := FetchFrom(SearchUrl(query, apiKey, encode), fetch);
  }
}
