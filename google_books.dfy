/**
 * `getGoogleBookInfo`: one Google Books volume search by cleaned title, giving the first
 * volume's rewritten thumbnail and first author, each null when absent; it never throws.
 */
module GoogleBooks {
  import opened Wrappers
  import opened Strings

  /** The `volumeInfo` of a volume: its `authors` and `imageLinks.thumbnail`, when present. */
  datatype VolumeInfo = VolumeInfo(authors: Option<seq<string>>, thumbnail: Option<string>)

  datatype Volume = Volume(volumeInfo: Option<VolumeInfo>)

  /** The search request: it failed (a non-OK status or a thrown error), or it answered with `items`, when present. */
  datatype Reply = Failed | Answered(items: Option<seq<Volume>>)

  datatype BookInfo = BookInfo(coverUrl: Option<string>, author: Option<string>)

  const NoInfo := BookInfo(None, None)

  /** A character the search keeps: `\w` or `\s`; any other becomes a space. */
  function CleanChar(c: char): (r: char)
    ensures IsWordChar(r) || IsSpace(r)
    ensures IsWordChar(c) || IsSpace(c) ==> r == c
    ensures !IsWordChar(c) && !IsSpace(c) ==> r == ' '
  {
    if IsWordChar(c) || IsSpace(c) then c else ' '
  }

  /** The title searched for: every character outside `\w` and `\s` made a space, then trimmed. */
  function CleanTitle(title: string): (r: string)
    ensures Trimmed(r) && |r| <= |title|
    ensures forall k :: 0 <= k < |r| ==> IsWordChar(r[k]) || IsSpace(r[k])
  {
    Trim(Spaced(title))
  }

  /** The title with every character outside `\w` and `\s` made a space. */
  function Spaced(title: string): (r: string)
    ensures |r| == |title|
    ensures forall k :: 0 <= k < |title| ==> r[k] == CleanChar(title[k])
  {
    seq(|title|, k requires 0 <= k < |title| => CleanChar(title[k]))
  }

  /** A trimmed title made of word characters and white space is searched for as it is. */
  lemma CleanTitleKeeps(title: string)
    requires Trimmed(title)
    requires forall k :: 0 <= k < |title| ==> IsWordChar(title[k]) || IsSpace(title[k])
    ensures CleanTitle(title) == title
  {
    assert Spaced(title) == title;
    assert [] + title + [] == title;
    TrimPadded([], title, []);
  }

  /**
   * A title that starts and ends with a word character keeps its length: its word characters
   * and white space stay where they are and every other character becomes a space.
   */
  lemma {:induction false} CleanTitleSpaces(title: string)
    requires |title| > 0 && IsWordChar(title[0]) && IsWordChar(title[|title| - 1])
    ensures CleanTitle(title) == Spaced(title)
  {
    var mapped := Spaced(title);
    assert [] + mapped + [] == mapped;
    TrimPadded([], mapped, []);
  }

  /** Cleaning a title twice is cleaning it once. */
  lemma CleanTitleTwice(title: string)
    ensures CleanTitle(CleanTitle(title)) == CleanTitle(title)
  {
    CleanTitleKeeps(CleanTitle(title));
  }

  const SearchBase := "https://www.googleapis.com/books/v1/volumes?q="
  const SearchFields := "&maxResults=1&langRestrict=en&fields=items(volumeInfo(title,authors,imageLinks))"

  /** The single-volume search for the cleaned title; `encode` is `encodeURIComponent`. */
  function SearchUrl(title: string, encode: string -> string): string {
    SearchBase + encode("intitle:" + CleanTitle(title)) + SearchFields
  }

  /** The `volumeInfo` of the first item of a reply, when there is one. */
  function InfoIn(reply: Reply): (info: Option<VolumeInfo>)
    ensures info.Some? <==>
      reply.Answered? && reply.items.Some? && |reply.items.value| > 0 && reply.items.value[0].volumeInfo.Some?
    ensures info.Some? ==> info == reply.items.value[0].volumeInfo
  {
    if reply.Answered? && reply.items.Some? && |reply.items.value| > 0 then reply.items.value[0].volumeInfo else None
  }

  /**
   * The cover address made of a thumbnail, in this order: the first `http:` becomes `https:`,
   * the first `zoom=1` becomes `zoom=3`, and the first `&edge=curl` and `&source=gbs_api` go.
   */
  function Improved(thumbnail: string): string {
    ReplaceFirst(ReplaceFirst(ReplaceFirst(ReplaceFirst(thumbnail, "http:", "https:"), "zoom=1", "zoom=3"), "&edge=curl", ""), "&source=gbs_api", "")
  }

  /** A plain HTTP thumbnail is moved to HTTPS, and the remaining rewrites apply to the rest of the address only. */
  lemma ImprovedHttp(rest: string)
    ensures Improved("http:" + rest) ==
      "https:" + ReplaceFirst(ReplaceFirst(ReplaceFirst(rest, "zoom=1", "zoom=3"), "&edge=curl", ""), "&source=gbs_api", "")
  {
    ReplaceFirstAtStart("http:", rest, "https:");
    var a := ReplaceFirst(rest, "zoom=1", "zoom=3");
    ReplaceFirstAfterPrefix("https:", rest, "zoom=1", "zoom=3");
    var b := ReplaceFirst(a, "&edge=curl", "");
    ReplaceFirstAfterPrefix("https:", a, "&edge=curl", "");
    ReplaceFirstAfterPrefix("https:", b, "&source=gbs_api", "");
  }

  /** `authors?.[0] || null`. */
  function FirstAuthor(info: VolumeInfo): (a: Option<string>)
    ensures a.Some? <==> info.authors.Some? && |info.authors.value| > 0 && info.authors.value[0] != ""
    ensures a.Some? ==> a.value == info.authors.value[0]
  {
    if info.authors.Some? && |info.authors.value| > 0 && info.authors.value[0] != "" then Some(info.authors.value[0]) else None
  }

  /**
   * `getGoogleBookInfo(title)`. `fetch(url)` is the reply to the search. An empty title
   * makes no request; every failure gives both fields null.
   */
  function GetGoogleBookInfo(title: string, encode: string -> string, fetch: string -> Reply): (r: BookInfo)
    ensures title == "" ==> r == NoInfo
    ensures title != "" && InfoIn(fetch(SearchUrl(title, encode))).None? ==> r == NoInfo
    ensures r.coverUrl.Some? ==>
      var info := InfoIn(fetch(SearchUrl(title, encode)));
      title != "" && info.Some? && info.value.thumbnail.Some? && info.value.thumbnail.value != "" &&
      r.coverUrl.value == Improved(info.value.thumbnail.value)
    ensures r.author.Some? ==>
      title != "" && InfoIn(fetch(SearchUrl(title, encode))).Some? &&
      r.author == FirstAuthor(InfoIn(fetch(SearchUrl(title, encode))).value)
    ensures title != "" && InfoIn(fetch(SearchUrl(title, encode))).Some? ==>
      var info := InfoIn(fetch(SearchUrl(title, encode))).value;
      r.author == FirstAuthor(info) && (r.coverUrl.Some? <==> info.thumbnail.Some? && info.thumbnail.value != "")
  {
    if title == "" then NoInfo
    else
      var info := InfoIn(fetch(SearchUrl(title, encode)));
      if info.None? then NoInfo
      else
        var imageUrl := if info.value.thumbnail.Some? && info.value.thumbnail.value != "" then Some(Improved(info.value.thumbnail.value)) else None;
        BookInfo(imageUrl, FirstAuthor(info.value))
  }
}
