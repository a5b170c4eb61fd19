/**
 * `GET /api/grade`: the analysis of an uploaded document at a summary length, kept in a
 * process-wide cache keyed by file name and length so that each key is parsed at most
 * once.
 */
module GradeRoute {
  import opened Wrappers
  import opened Strings
  import opened Files
  import Staging
  import LlamaParse

  datatype Body = Failure(error: string) | Graded(result: LlamaParse.ParseResult)

  datatype Response = Response(status: int, body: Body)

  const NoFileName := Response(400, Failure("fileName is required"))
  const NotFound := Response(404, Failure("File not found"))

  /** The `length` parameter, `medium` when it is absent or empty; any other value is taken as it is. */
  function LengthOf(length: Option<string>): (l: string)
    ensures l != ""
    ensures length.Some? && length.value != "" ==> l == length.value
    ensures length.None? || length.value == "" ==> l == "medium"
  {
    if length.Some? && length.value != "" then length.value else "medium"
  }

  /** The cache key: the file name, a hyphen and the length. */
  function Key(fileName: string, length: string): (k: string)
    ensures |k| == |fileName| + 1 + |length| && k[..|fileName|] == fileName
  {
    fileName + "-" + length
  }

  predicate KnownLength(length: string) {
    length == "short" || length == "medium" || length == "long"
  }

  /** For the three lengths the client sends, the key determines the file name and the length. */
  lemma KeyInjective(f1: string, l1: string, f2: string, l2: string)
    requires KnownLength(l1) && KnownLength(l2)
    requires Key(f1, l1) == Key(f2, l2)
    ensures f1 == f2 && l1 == l2
  {
    var k := Key(f1, l1);
    // the three lengths end in different letters
    assert k[|k| - 1] == l1[|l1| - 1] && k[|k| - 1] == l2[|l2| - 1];
    assert l1 == l2;
    assert |f1| == |f2|;
  }

  /** Any other length lets two different requests share a key. */
  lemma KeyCollision()
    ensures Key("a-b", "c") == Key("a", "b-c")
  {
  }

  /** Where an uploaded file is looked for. */
  function UploadedFile(fileName: string): (p: Path)
    ensures p != [] && Parent(p) == Staging.Uploaded
  {
    Staging.Uploaded + [fileName]
  }

  /** The module-level `parseCache`. */
  class Cache {
    var entries: map<string, LlamaParse.ParseResult>

    constructor()
      ensures entries == map[]
    {
      entries := map[];
    }

    /**
     * `GET /api/grade?fileName=…&length=…` with the files in `nodes`. A cached analysis is
     * answered without looking at the file; otherwise a missing file is refused, and a
     * successful analysis is cached before it is answered. `parsed` tells whether the
     * document was parsed.
     */
    method Get(fileName: Option<string>, length: Option<string>, nodes: map<Path, Node>, s: LlamaParse.Services)
      returns (r: Response, parsed: bool)
      modifies this
      ensures fileName.None? || fileName.value == "" ==> r == NoFileName && !parsed && entries == old(entries)
      ensures fileName.Some? && fileName.value != "" ==>
        var key := Key(fileName.value, LengthOf(length));
        (key in old(entries) ==> r == Response(200, Graded(old(entries)[key])) && !parsed && entries == old(entries)) &&
        (key !in old(entries) && UploadedFile(fileName.value) !in nodes ==> r == NotFound && !parsed && entries == old(entries)) &&
        (key !in old(entries) && UploadedFile(fileName.value) in nodes ==> parsed)
      ensures parsed ==>
        var key := Key(fileName.value, LengthOf(length));
        var result := LlamaParse.ParseDocument(UploadedFile(fileName.value), LengthOf(length), s);
        key !in old(entries) &&
        (result.Ok? ==> r == Response(200, Graded(result.value)) && entries == old(entries)[key := result.value]) &&
        (result.Err? ==> r == Response(500, Failure(result.error)) && entries == old(entries))
      ensures forall key :: key in old(entries) ==> key in entries && entries[key] == old(entries)[key]
    {
      parsed := false;
      if fileName.None? || fileName.value == "" {
        return NoFileName, parsed;
      }
      var len := LengthOf(length);
      var cacheKey := Key(fileName.value, len);
      if cacheKey in entries {
        return Response(200, Graded(entries[cacheKey])), parsed;
      }
      var filePath := UploadedFile(fileName.value);
      if filePath !in nodes {
        return NotFound, parsed;
      }
      parsed := true;
      var result := LlamaParse.ParseDocument(filePath, len, s);
      if result.Err? {
        return Response(500, Failure(result.error)), parsed;
      }
      entries := entries[cacheKey := result.value];
      r := Response(200, Graded(result.value));
    }
  }
}
