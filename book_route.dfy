/**
 * `GET /api/book`: an Open Library search by title, then the cover image of the first
 * result tried in sizes L, M and S, falling back to the placeholder image.
 */
module BookRoute {
  import opened Wrappers
  import opened Strings

  /** The sizes tried, largest first. */
  const CoverSizes := ["L", "M", "S"]

  const Placeholder := "/images/placeholder-book.png"

  /** The first search result: its `cover_i` and `author_name`, when present. */
  datatype Doc = Doc(coverId: Option<int>, authorNames: Option<seq<string>>)

  datatype Body = Failure(error: string) | Cover(coverUrl: string, author: Option<string>)

  datatype Response = Response(status: int, body: Body)

  const MissingTitle := Response(400, Failure("Missing title"))
  const SearchFailed := Response(500, Failure("Failed to fetch book info"))
  const NoCover := Response(200, Cover(Placeholder, None))

  /** The title with every space made a `+`; nothing else is encoded. */
  function Plussed(title: string): (q: string)
    ensures |q| == |title| && ' ' !in q
    ensures forall k :: 0 <= k < |q| ==> q[k] == (if title[k] == ' ' then '+' else title[k])
  {
    seq(|title|, k requires 0 <= k < |title| => if title[k] == ' ' then '+' else title[k])
  }

  const SearchBase := "https://openlibrary.org/search.json?q="
  const ImageBase := "https://covers.openlibrary.org/b/id/"

  function SearchUrl(title: string): string {
    SearchBase + Plussed(title)
  }

  /** The image of cover `id` in size `size`. */
  function ImageUrl(id: int, size: string): (url: string)
    ensures StartsWith(url, ImageBase + IntText(id) + "-") && EndsWith(url, "-" + size + ".jpg")
  {
    var head := ImageBase + IntText(id) + "-";
    var url := head + size + ".jpg";
    assert url[..|head|] == head;
    assert url[|url| - |"-" + size + ".jpg"|..] == "-" + size + ".jpg";
    url
  }

  /** The first size, from index `from` on, whose image loads with status 200 according to `loads`. */
  function FirstSize(loads: string -> bool, id: int, from: nat): (k: Option<nat>)
    requires from <= |CoverSizes|
    ensures k.Some? ==> from <= k.value < |CoverSizes| && loads(ImageUrl(id, CoverSizes[k.value]))
    ensures k.Some? ==> forall j :: from <= j < k.value ==> !loads(ImageUrl(id, CoverSizes[j]))
    ensures k.None? ==> forall j :: from <= j < |CoverSizes| ==> !loads(ImageUrl(id, CoverSizes[j]))
    decreases |CoverSizes| - from
  {
    if from == |CoverSizes| then None
    else if loads(ImageUrl(id, CoverSizes[from])) then Some(from)
    else FirstSize(loads, id, from + 1)
  }

  /** The first result's truthy `cover_i`, if any. */
  function CoverOf(docs: Option<seq<Doc>>): (id: Option<int>)
    ensures id.Some? <==> docs.Some? && |docs.value| > 0 && docs.value[0].coverId.Some? && docs.value[0].coverId.value != 0
    ensures id.Some? ==> id == docs.value[0].coverId
  {
    if docs.Some? && |docs.value| > 0 && docs.value[0].coverId.Some? && docs.value[0].coverId.value != 0 then docs.value[0].coverId
    else None
  }

  /** `author_name?.[0] || null` of the first result. */
  function AuthorOf(docs: Option<seq<Doc>>): (a: Option<string>)
    ensures a.Some? <==>
      docs.Some? && |docs.value| > 0 && docs.value[0].authorNames.Some? &&
      |docs.value[0].authorNames.value| > 0 && docs.value[0].authorNames.value[0] != ""
    ensures a.Some? ==> a.value == docs.value[0].authorNames.value[0]
  {
    if docs.Some? && |docs.value| > 0 && docs.value[0].authorNames.Some? && |docs.value[0].authorNames.value| > 0 &&
      docs.value[0].authorNames.value[0] != ""
    then Some(docs.value[0].authorNames.value[0])
    else None
  }

  /**
   * What the route answers for `title`. `search(url)` is the search's `docs` (the outer None
   * when the request threw) and `loads(url)` tells whether an image request answers 200.
   * The author is never consulted.
   */
  function BookLookup(title: Option<string>, search: string -> Option<Option<seq<Doc>>>, loads: string -> bool): (r: Response)
    ensures r.status == 200 || r == MissingTitle || r == SearchFailed
    ensures r == MissingTitle <==> title.None? || title.value == ""
    ensures r == SearchFailed <==> title.Some? && title.value != "" && search(SearchUrl(title.value)).None?
    ensures r.status == 200 ==> r.body.Cover? && (r == NoCover || r.body.coverUrl != Placeholder)
    ensures r.status == 200 && r.body.coverUrl != Placeholder ==>
      var docs := search(SearchUrl(title.value)).value;
      var id := CoverOf(docs);
      id.Some? && FirstSize(loads, id.value, 0).Some? &&
      r.body == Cover(ImageUrl(id.value, CoverSizes[FirstSize(loads, id.value, 0).value]), AuthorOf(docs))
    ensures title.Some? && title.value != "" && search(SearchUrl(title.value)).Some? ==>
      var docs := search(SearchUrl(title.value)).value;
      var id := CoverOf(docs);
      (id.Some? && FirstSize(loads, id.value, 0).Some? ==>
        r == Response(200, Cover(ImageUrl(id.value, CoverSizes[FirstSize(loads, id.value, 0).value]), AuthorOf(docs)))) &&
      (id.None? || FirstSize(loads, id.value, 0).None? ==> r == NoCover)
  {
    if title.None? || title.value == "" then MissingTitle
    else
      var docs := search(SearchUrl(title.value));
      if docs.None? then SearchFailed
      else
        var id := CoverOf(docs.value);
        if id.None? then NoCover
        else
          var k := FirstSize(loads, id.value, 0);
          if k.None? then NoCover
          else
            var url := ImageUrl(id.value, CoverSizes[k.value]);
            assert url[..|ImageBase|][0] == ImageBase[0] != Placeholder[0];
            Response(200, Cover(url, AuthorOf(docs.value)))
  }

  /**
   * `GET /api/book?title=…&author=…`. The sizes are tried in order until one loads;
   * `imageRequests` counts the image requests made, never more than three.
   */
  method Get(title: Option<string>, author: Option<string>, search: string -> Option<Option<seq<Doc>>>, loads: string -> bool)
    returns (r: Response, imageRequests: nat)
    ensures r == BookLookup(title, search, loads)
    ensures imageRequests <= |CoverSizes|
    ensures r.status == 200 && r.body.coverUrl != Placeholder ==>
      imageRequests == FirstSize(loads, CoverOf(search(SearchUrl(title.value)).value).value, 0).value + 1
    ensures r == NoCover && title.Some? && search(SearchUrl(title.value)).Some? ==>
      imageRequests == (if CoverOf(search(SearchUrl(title.value)).value).Some? then |CoverSizes| else 0)
  {
    imageRequests := 0;
    if title.None? || title.value == "" {
      return MissingTitle, imageRequests;
    }
    var query := Plussed(title.value);
    var docs := search(SearchBase + query);
    if docs.None? {
      return SearchFailed, imageRequests;
    }
    if docs.value.Some? && |docs.value.value| > 0 {
      var book := docs.value.value[0];
      var coverI := book.coverId;
      var foundAuthor := AuthorOf(docs.value);
      if coverI.Some? && coverI.value != 0 {
        for i := 0 to |CoverSizes|
          invariant imageRequests == i
          invariant FirstSize(loads, coverI.value, 0) == FirstSize(loads, coverI.value, i)
        {
          var imageUrl := ImageUrl(coverI.value, CoverSizes[i]);
          imageRequests := imageRequests + 1;
          if loads(imageUrl) {
            return Response(200, Cover(imageUrl, foundAuthor)), imageRequests;
          }
        }
      }
    }
    r := NoCover;
  }
}
