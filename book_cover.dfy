/**
 * `getCoverUrl`: one Open Library search for title and author, giving the large cover
 * image of the first result or the placeholder image; it never throws and never gives null.
 */
module BookCover {
  import opened Strings
  import OpenLibraryService

  const Placeholder := "/images/placeholder-book.png"

  /** The search request for `title author`, limited to one result; `encode` is `encodeURIComponent`. */
  function SearchUrl(title: string, author: string, encode: string -> string): string {
    OpenLibraryService.SearchBase + encode(title + " " + author) + "&limit=1"
  }

  /**
   * `getCoverUrl(title, author)`. `fetch(url)` is the reply to the search, `Failed` when the
   * request or the JSON decoding threw. The cover image of the first result when it has a
   * truthy `cover_i`, the placeholder otherwise, and the two can always be told apart.
   */
  function GetCoverUrl(title: string, author: string, encode: string -> string, fetch: string -> OpenLibraryService.Reply): (url: string)
    ensures var cover := OpenLibraryService.CoverIn(fetch(SearchUrl(title, author, encode)));
      (cover.Some? ==> url == OpenLibraryService.CoverUrl(cover.value)) &&
      (url == Placeholder <==> cover.None?)
    ensures url != ""
  {
    var cover := OpenLibraryService.CoverIn(fetch(SearchUrl(title, author, encode)));
    if cover.Some? then OpenLibraryService.CoverUrl(cover.value) else Placeholder
  }
}
