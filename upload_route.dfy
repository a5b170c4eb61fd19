/**
 * The upload endpoint: an uploaded PDF, or an EPUB converted to PDF, is cut to its first
 * 25 pages and stored under `docs/uploaded`, after which the staging directories are
 * cleared.
 */
module UploadRoute {
  import opened Wrappers
  import opened Strings
  import opened Seqs
  import opened Files
  import opened Pdf
  import opened Staging
  import opened EpubConverter

  /** The `file` field of the submitted form: the client's file name and the bytes. */
  datatype Upload = Upload(name: string, data: Bytes)

  datatype Body = Failure(error: string) | Processed(message: string, fileName: string)

  datatype Response = Response(status: int, body: Body)

  const NoFile := Response(400, Failure("No file provided"))
  const Unsupported := Response(400, Failure("Unsupported file type. Please upload PDF or EPUB files."))
  const NoPages := Response(400, Failure("Document contains no pages"))
  const ServerError := Response(500, Failure("Error processing file. Please try again."))

  /** The most pages a stored document keeps. */
  const MaxPages := 25

  /** Each white-space character of the name becomes `_`. */
  function SanitizedName(name: string): (r: string)
    ensures |r| == |name| && NoSpace(r)
    ensures forall k :: 0 <= k < |r| && !IsSpace(name[k]) ==> r[k] == name[k]
    ensures forall k :: 0 <= k < |r| && IsSpace(name[k]) ==> r[k] == '_'
  {
    seq(|name|, k requires 0 <= k < |name| => if IsSpace(name[k]) then '_' else name[k])
  }

  /** A sanitised name is sanitised already. */
  lemma SanitizedTwice(name: string)
    ensures SanitizedName(SanitizedName(name)) == SanitizedName(name)
  {
  }

  /** The position of the last `.` in `s`. */
  function LastDot(s: string): (r: Option<nat>)
    ensures r.Some? ==> r.value < |s| && s[r.value] == '.' && forall k :: r.value < k < |s| ==> s[k] != '.'
    ensures r.None? ==> forall k :: 0 <= k < |s| ==> s[k] != '.'
    decreases |s|
  {
    if s == [] then None
    else if s[|s| - 1] == '.' then Some(|s| - 1)
    else LastDot(s[..|s| - 1])
  }

  /**
   * `path.extname` of a file name: from the last `.` to the end, or nothing when there is
   * no dot, when the only character before the last dot is none at all, or for `..`.
   */
  function Extname(name: string): (ext: string)
    ensures ext == "" || (ext[0] == '.' && forall k :: 0 < k < |ext| ==> ext[k] != '.')
    ensures |ext| <= |name| && name[|name| - |ext|..] == ext
    ensures ext != "" ==> |ext| < |name|
  {
    var d := LastDot(name);
    if d.None? || d.value == 0 || name == ".." then "" else name[d.value..]
  }

  /** `path.parse(name).name`: the name without its extension. */
  function Stem(name: string): (r: string)
    ensures r + Extname(name) == name
  {
    name[..|name| - |Extname(name)|]
  }

  /** The extension of a name that has one is exactly what follows its last dot, and a name is its stem and its extension. */
  lemma ExtnameOf(stem: string, ext: string)
    requires stem != "" && stem != "." && ext != "" && ext[0] == '.'
    requires forall k :: 0 < k < |ext| ==> ext[k] != '.'
    ensures Extname(stem + ext) == ext && Stem(stem + ext) == stem
  {
    var name := stem + ext;
    var d := LastDot(name);
    assert name[|stem|] == '.';
    assert forall k :: |stem| < k < |name| ==> name[k] == ext[k - |stem|];
    assert d.value == |stem|;
    assert name[d.value..] == ext;
    assert name != "..";
  }

  /** The lowercased extension the upload is dispatched on. */
  function Kind(name: string): (r: string)
    ensures r == "" || (r[0] == '.' && |r| < |name|)
    ensures forall k :: 0 <= k < |r| ==> !IsAsciiUpper(r[k]) && !IsSpace(r[k])
  {
    var ext := Extname(SanitizedName(name));
    assert forall k :: 0 <= k < |ext| ==> ext[k] == SanitizedName(name)[|name| - |ext| + k];
    Lower(ext)
  }

  /** A name without white space is of the kind of its extension, whatever the letter case. */
  lemma KindOf(stem: string, ext: string)
    requires stem != "" && stem != "." && ext != "" && ext[0] == '.'
    requires forall k :: 0 < k < |ext| ==> ext[k] != '.'
    requires NoSpace(stem + ext)
    ensures Kind(stem + ext) == Lower(ext)
  {
    assert SanitizedName(stem + ext) == stem + ext;
    ExtnameOf(stem, ext);
  }

  /** Where an upload is stored: an EPUB under its stem with `.pdf` added, any other file under its own name. */
  function FinalFile(fileName: string, epub: bool): (p: Path)
    ensures p != [] && Parent(p) == Uploaded
  {
    Uploaded + [if epub then Stem(fileName) + ".pdf" else fileName]
  }

  /** Where an EPUB is written before conversion. */
  function TempFile(fileName: string): (p: Path)
    ensures p != [] && Parent(p) == Tmp
  {
    Tmp + ["temp_" + fileName]
  }

  /** The pages of the stored document: the first `min(25, n)` of the `n` loaded ones, in order. */
  function Truncated(pages: seq<Page>): (r: seq<Page>)
    ensures |r| == Min(MaxPages, |pages|)
    ensures forall k :: 0 <= k < |r| ==> r[k] == pages[k]
  {
    pages[..Min(MaxPages, |pages|)]
  }

  /** Truncating keeps a short document whole, and truncating twice is truncating once. */
  lemma TruncatedProperties(pages: seq<Page>)
    ensures |pages| <= MaxPages ==> Truncated(pages) == pages
    ensures Truncated(Truncated(pages)) == Truncated(pages)
  {
  }

  /**
   * The response after storing: success, naming the stored file, when the directories
   * were cleared; otherwise the clearing threw and the fixed server error is returned.
   */
  function Finish(cleared: bool, final: Path): (r: Response)
    requires final != []
    ensures cleared ==> r.status == 200 && r.body.Processed? && r.body.fileName == final[|final| - 1]
    ensures !cleared ==> r == ServerError
  {
    if cleared then Response(200, Processed("File processed successfully", final[|final| - 1])) else ServerError
  }

  /** Copies the first `min(25, n)` pages of `pages` into a new document. */
  method CopyFirstPages(pages: seq<Page>) returns (doc: Document)
    ensures fresh(doc) && doc.pages == Truncated(pages)
  {
    doc := new Document();
    var count := Min(MaxPages, |pages|);
    for k := 0 to count
      invariant doc.pages == pages[..k]
    {
      doc.AddCopiedPage(pages[k]);
      assert pages[..k + 1] == pages[..k] + [pages[k]];
    }
  }

  /**
   * What the EPUB branch reads back for an upload of `data` named `fileName`, on a disk
   * holding `nodes` below the working directory `cwd`: None when the temporary copy cannot
   * be written, when the conversion fails or when its output is no file; otherwise the
   * bytes of the converted document, which is the one already stored under the digest of
   * the temporary path when there is one, else the book laid out from the archive.
   */
  function Conversion(nodes: map<Path, Node>, cwd: string, fileName: string, data: Bytes, c: Converter): (buffer: Option<Bytes>)
    ensures buffer.Some? ==> IsDirectory(nodes, Tmp)
    ensures buffer.Some? ==> c.unzip(data).Some? || OutputFile(c.hash(FullPath(cwd, TempFile(fileName)))) in nodes
  {
    var temp := TempFile(fileName);
    if !IsDirectory(nodes, Tmp) || IsDirectory(nodes, temp) then None
    else
      var staged := nodes[temp := File(data)];
      var out := OutputFile(c.hash(FullPath(cwd, temp)));
      if out in staged then (if staged[out].File? then Some(staged[out].data) else None)
      else if IsDirectory(Ensure(staged, TmpDir), TmpDir) && c.unzip(data).Some? then
        Some(c.codec.save(BookOf(c.unzip(data).value, c.reader)))
      else None
  }

  /**
   * With `tmp` a directory, no earlier conversion under the same digest, and `docs/tmp`
   * either present as a directory or creatable, an upload that unzips is read back as the
   * book laid out from its archive; one that does not unzip is not read back at all.
   */
  lemma ConversionLaysOut(nodes: map<Path, Node>, cwd: string, fileName: string, data: Bytes, c: Converter)
    requires IsDirectory(nodes, Tmp) && !IsDirectory(nodes, TempFile(fileName))
    requires OutputFile(c.hash(FullPath(cwd, TempFile(fileName)))) !in nodes
    requires IsDirectory(nodes, TmpDir) || (TmpDir !in nodes && !Blocked(nodes, TmpDir))
    ensures c.unzip(data).Some? ==> Conversion(nodes, cwd, fileName, data, c) == Some(c.codec.save(BookOf(c.unzip(data).value, c.reader)))
    ensures c.unzip(data).None? ==> Conversion(nodes, cwd, fileName, data, c).None?
  {
    var temp := TempFile(fileName);
    var staged := nodes[temp := File(data)];
    assert temp[0] == "tmp";
    assert OutputFile(c.hash(FullPath(cwd, temp))) != temp;
    assert IsDirectory(staged, TmpDir) || (TmpDir !in staged && !Blocked(staged, TmpDir)) by {
      WritingOutsideKeepsUnblocked(nodes, temp, File(data));
    }
    assert IsDirectory(Ensure(staged, TmpDir), TmpDir) by {
      assert TmpDir[..2] == TmpDir;
    }
  }

  /** Writing an entry under `tmp` neither makes nor blocks `docs/tmp`. */
  lemma WritingOutsideKeepsUnblocked(nodes: map<Path, Node>, temp: Path, node: Node)
    requires temp != [] && temp[0] == "tmp"
    ensures IsDirectory(nodes[temp := node], TmpDir) == IsDirectory(nodes, TmpDir)
    ensures (TmpDir in nodes[temp := node]) == (TmpDir in nodes)
    ensures Blocked(nodes[temp := node], TmpDir) == Blocked(nodes, TmpDir)
  {
    var staged := nodes[temp := node];
    forall q | q in Prefixes(TmpDir)
      ensures IsFile(staged, q) == IsFile(nodes, q)
    {
      assert q[0] == "docs";
    }
  }

  /**
   * The entries the EPUB branch leaves: every earlier entry but the temporary copy as it
   * was, and as new entries only `docs/tmp`, its parent and the files inside it.
   */
  ghost predicate KeepsOutside(before: map<Path, Node>, after: map<Path, Node>, temp: Path) {
    (forall q :: q in before && q != temp ==> q in after && after[q] == before[q]) &&
    (forall q :: q in after && q !in before ==> q in Prefixes(TmpDir) || IsChild(q, TmpDir))
  }

  /**
   * The EPUB branch: the upload is written to `tmp/temp_<name>`, converted, the converted
   * document read, and the temporary copy removed; None when any step throws.
   */
  method ConvertUpload(disk: Disk, fileName: string, data: Bytes, c: Converter) returns (buffer: Option<Bytes>)
    requires disk.Valid()
    modifies disk
    ensures disk.Valid()
    ensures buffer == Conversion(old(disk.nodes), disk.cwd, fileName, data, c)
    ensures buffer.Some? ==> TempFile(fileName) !in disk.nodes && KeepsOutside(old(disk.nodes), disk.nodes, TempFile(fileName))
    ensures KeepsOutside(old(disk.nodes), disk.nodes - {TempFile(fileName)}, TempFile(fileName))
    ensures buffer.None? && IsDirectory(old(disk.nodes), Tmp) && !IsDirectory(old(disk.nodes), TempFile(fileName)) ==>
      TempFile(fileName) in disk.nodes && disk.nodes[TempFile(fileName)] == File(data)
  {
    ghost var before := disk.nodes;
    var tempEpub := TempFile(fileName);
    var written := disk.Write(tempEpub, data);
    if !written {
      assert disk.nodes - {tempEpub} == before - {tempEpub};
      return None;
    }
    ghost var staged := disk.nodes;
    var converted := ConvertEpubToPdf(disk, tempEpub, c);
    if converted.Err? {
      ConvertedKeeps(before, staged, disk.nodes, tempEpub, OutputFile(c.hash(FullPath(disk.cwd, tempEpub))));
      return None;
    }
    ghost var out := converted.value.pdfFile;
    ConvertedKeeps(before, staged, disk.nodes, tempEpub, out);
    var pdf := disk.Read(converted.value.pdfFile);
    if pdf.None? {
      return None;
    }
    var unlinked := disk.Unlink(tempEpub);
    if !unlinked {
      return None;
    }
    return pdf;
  }

  /** After a conversion the temporary copy is still a file, and only `docs/tmp` and what is in it are new. */
  lemma ConvertedKeeps(before: map<Path, Node>, staged: map<Path, Node>, after: map<Path, Node>, temp: Path, out: Path)
    requires IsChild(temp, Tmp) && IsFile(staged, temp) && staged == before[temp := staged[temp]]
    requires out != [] && Parent(out) == TmpDir
    requires after == staged || after == Ensure(staged, TmpDir) ||
      (out !in staged && out in after && after == Ensure(staged, TmpDir)[out := after[out]])
    ensures IsFile(after, temp) && after[temp] == staged[temp]
    ensures KeepsOutside(before, after - {temp}, temp)
  {
    assert IsChild(out, TmpDir);
  }

  /**
   * `b` is `a` with `final` written and at most some files directly inside `docs` removed:
   * every other entry of `a` is still there as it was.
   */
  ghost predicate StoredOver(a: map<Path, Node>, b: map<Path, Node>, final: Path) {
    (forall q :: q in b && q != final ==> q in a && b[q] == a[q]) &&
    (forall q :: q in a && q != final && q !in b ==> IsChild(q, Docs) && a[q].File?)
  }

  /**
   * `b` is `a` after a conversion through `temp` and a store at `final`: the temporary copy
   * is gone, files directly inside `docs` may be gone, every other entry of `a` is as it was,
   * and the only new entries are `final` and `docs/tmp` with its parent and contents.
   */
  ghost predicate ConvertedAndStored(a: map<Path, Node>, b: map<Path, Node>, temp: Path, final: Path) {
    temp !in b &&
    (forall q :: q in a && q != temp && q != final && q !in b ==> IsChild(q, Docs) && a[q].File?) &&
    (forall q :: q in a && q in b && q != final ==> b[q] == a[q]) &&
    (forall q :: q in b && q !in a ==> q == final || q in Prefixes(TmpDir) || IsChild(q, TmpDir))
  }

  /** A conversion followed by a store at the final path composes into `ConvertedAndStored`. */
  lemma StoredAfterConversion(a: map<Path, Node>, c: map<Path, Node>, b: map<Path, Node>, temp: Path, final: Path)
    requires temp !in c && KeepsOutside(a, c, temp) && StoredOver(c, b, final) && final != temp
    ensures ConvertedAndStored(a, b, temp, final)
  {
  }

  /**
   * The common tail of both branches: the document in `buffer` is loaded, refused when it
   * has no pages, cut to its first pages and written to `finalFile`, and the staging
   * directories are cleared. `stored` tells whether the file was written.
   */
  method Store(disk: Disk, finalFile: Path, buffer: Bytes, codec: Codec) returns (r: Response, ghost stored: bool)
    requires disk.Valid() && finalFile != [] && Parent(finalFile) == Uploaded
    modifies disk
    ensures disk.Valid()
    ensures r.status != 200
    ensures r.status == 400 || r == ServerError
    ensures codec.load(buffer) == Some([]) ==> r == NoPages && disk.nodes == old(disk.nodes)
    ensures stored <==>
      codec.load(buffer).Some? && codec.load(buffer).value != [] &&
      IsDirectory(old(disk.nodes), Uploaded) && !IsDirectory(old(disk.nodes), finalFile)
    ensures stored ==>
      r == ServerError && finalFile in disk.nodes &&
      disk.nodes[finalFile] == File(codec.save(Truncated(codec.load(buffer).value)))
    ensures forall q :: q !in old(disk.nodes) && q != finalFile ==> q !in disk.nodes
    ensures !stored ==> disk.nodes == old(disk.nodes)
    ensures stored ==> StoredOver(old(disk.nodes), disk.nodes, finalFile)
  {
    stored := false;
    var pages := codec.load(buffer);
    if pages.None? {
      return ServerError, stored;
    }
    if |pages.value| == 0 {
      return NoPages, stored;
    }
    var newDoc := CopyFirstPages(pages.value);
    var bytes := codec.save(newDoc.pages);
    var ok := disk.Write(finalFile, bytes);
    if !ok {
      return ServerError, stored;
    }
    stored := true;
    assert DocsHoldsDirectory(disk.nodes) by {
      assert IsChild(Uploaded, Docs) && IsDirectory(disk.nodes, Uploaded);
    }
    ghost var before := disk.nodes;
    var cleared := ClearRequiredDirectories(disk);
    assert finalFile in disk.nodes && disk.nodes[finalFile] == before[finalFile] by {
      assert !IsChild(finalFile, Docs);
    }
    r := Finish(cleared, finalFile);
  }

  /**
   * `POST /api/upload`. `file` is the form's `file` field; the staging directories are made
   * sure of first. A PDF, or an EPUB after conversion, is stored cut to its first pages,
   * and the staging directories are cleared. Every exception inside the handler becomes the
   * fixed server error. `stored` is the file written, when one was, and `loaded` the pages
   * it was cut from.
   */
  method Post(disk: Disk, file: Option<Upload>, c: Converter) returns (r: Response, ghost stored: Option<Path>, ghost loaded: seq<Page>)
    requires disk.Valid()
    modifies disk
    ensures disk.Valid()
    ensures r.status != 200
    ensures r.status == 400 || r == ServerError
    ensures file.None? ==> r == NoFile && disk.nodes == EnsureAll(old(disk.nodes), Required)
    ensures file.Some? && Kind(file.value.name) != ".epub" && Kind(file.value.name) != ".pdf" ==>
      r == Unsupported && disk.nodes == EnsureAll(old(disk.nodes), Required)
    ensures file.Some? && Kind(file.value.name) == ".pdf" && c.codec.load(file.value.data) == Some([]) ==> r == NoPages
    ensures file.Some? && Kind(file.value.name) == ".pdf" && c.codec.load(file.value.data).Some? ==>
      var pages := c.codec.load(file.value.data).value;
      var staged := EnsureAll(old(disk.nodes), Required);
      var final := FinalFile(SanitizedName(file.value.name), false);
      (pages != [] && IsDirectory(staged, Uploaded) && !IsDirectory(staged, final) ==>
        stored == Some(final) && loaded == pages)
    ensures stored.Some? ==>
      file.Some? && r == ServerError &&
      stored.value == FinalFile(SanitizedName(file.value.name), Kind(file.value.name) == ".epub") &&
      loaded != [] && stored.value in disk.nodes && disk.nodes[stored.value] == File(c.codec.save(Truncated(loaded)))
    ensures stored.Some? && Kind(file.value.name) == ".epub" ==> TempFile(SanitizedName(file.value.name)) !in disk.nodes
    ensures file.Some? && Kind(file.value.name) == ".epub" ==>
      var staged := EnsureAll(old(disk.nodes), Required);
      var fileName := SanitizedName(file.value.name);
      var buffer := Conversion(staged, disk.cwd, fileName, file.value.data, c);
      var final := FinalFile(fileName, true);
      (buffer.None? ==> r == ServerError) &&
      (buffer.Some? && c.codec.load(buffer.value) == Some([]) ==> r == NoPages) &&
      (buffer.Some? && c.codec.load(buffer.value).Some? && c.codec.load(buffer.value).value != [] &&
        IsDirectory(staged, Uploaded) && !IsDirectory(staged, final) ==>
        stored == Some(final) && loaded == c.codec.load(buffer.value).value)
    ensures file.Some? && Kind(file.value.name) == ".pdf" ==>
      var staged := EnsureAll(old(disk.nodes), Required);
      (stored.None? ==> disk.nodes == staged) &&
      (stored.Some? ==> StoredOver(staged, disk.nodes, stored.value))
    ensures file.Some? && Kind(file.value.name) == ".epub" ==>
      var staged := EnsureAll(old(disk.nodes), Required);
      var fileName := SanitizedName(file.value.name);
      var temp := TempFile(fileName);
      (stored.None? ==> KeepsOutside(staged, disk.nodes - {temp}, temp)) &&
      (stored.Some? ==> ConvertedAndStored(staged, disk.nodes, temp, stored.value)) &&
      (Conversion(staged, disk.cwd, fileName, file.value.data, c).None? &&
        IsDirectory(staged, Tmp) && !IsDirectory(staged, temp) ==>
        temp in disk.nodes && disk.nodes[temp] == File(file.value.data))
  {
    stored := None;
    loaded := [];
    EnsureDirectoriesExist(disk);
    if file.None? {
      return NoFile, stored, loaded;
    }
    var fileName := SanitizedName(file.value.name);
    var fileExt := Lower(Extname(fileName));
    if fileExt == ".epub" {
      r, stored, loaded := UploadEpub(disk, fileName, file.value.data, c);
    } else if fileExt == ".pdf" {
      r, stored, loaded := UploadPdf(disk, fileName, file.value.data, c.codec);
    } else {
      return Unsupported, stored, loaded;
    }
  }

  /** The PDF branch of the upload, once the staging directories are made sure of. */
  method UploadPdf(disk: Disk, fileName: string, data: Bytes, codec: Codec)
    returns (r: Response, ghost stored: Option<Path>, ghost loaded: seq<Page>)
    requires disk.Valid()
    modifies disk
    ensures disk.Valid()
    ensures r.status == 400 || r == ServerError
    ensures codec.load(data) == Some([]) ==> r == NoPages
    ensures (codec.load(data).Some? && codec.load(data).value != [] &&
             IsDirectory(old(disk.nodes), Uploaded) && !IsDirectory(old(disk.nodes), FinalFile(fileName, false))) ==>
      stored == Some(FinalFile(fileName, false)) && loaded == codec.load(data).value
    ensures stored.Some? ==>
      r == ServerError && stored.value == FinalFile(fileName, false) && loaded != [] &&
      stored.value in disk.nodes && disk.nodes[stored.value] == File(codec.save(Truncated(loaded)))
    ensures stored.None? ==> disk.nodes == old(disk.nodes)
    ensures stored.Some? ==> StoredOver(old(disk.nodes), disk.nodes, stored.value)
  {
    stored := None;
    loaded := [];
    var finalFile := FinalFile(fileName, false);
    ghost var written;
    r, written := Store(disk, finalFile, data, codec);
    if written {
      stored := Some(finalFile);
      loaded := codec.load(data).value;
    }
  }

  /** The EPUB branch of the upload, once the staging directories are made sure of. */
  method UploadEpub(disk: Disk, fileName: string, data: Bytes, c: Converter)
    returns (r: Response, ghost stored: Option<Path>, ghost loaded: seq<Page>)
    requires disk.Valid()
    modifies disk
    ensures disk.Valid()
    ensures r.status == 400 || r == ServerError
    ensures var buffer := Conversion(old(disk.nodes), disk.cwd, fileName, data, c);
      var final := FinalFile(fileName, true);
      (buffer.None? ==> r == ServerError) &&
      (buffer.Some? && c.codec.load(buffer.value) == Some([]) ==> r == NoPages) &&
      (buffer.Some? && c.codec.load(buffer.value).Some? && c.codec.load(buffer.value).value != [] &&
        IsDirectory(old(disk.nodes), Uploaded) && !IsDirectory(old(disk.nodes), final) ==>
        stored == Some(final) && loaded == c.codec.load(buffer.value).value)
    ensures stored.Some? ==>
      r == ServerError && stored.value == FinalFile(fileName, true) && loaded != [] &&
      stored.value in disk.nodes && disk.nodes[stored.value] == File(c.codec.save(Truncated(loaded)))
    ensures stored.None? ==> KeepsOutside(old(disk.nodes), disk.nodes - {TempFile(fileName)}, TempFile(fileName))
    ensures stored.Some? ==> ConvertedAndStored(old(disk.nodes), disk.nodes, TempFile(fileName), stored.value)
    ensures (Conversion(old(disk.nodes), disk.cwd, fileName, data, c).None? &&
             IsDirectory(old(disk.nodes), Tmp) && !IsDirectory(old(disk.nodes), TempFile(fileName))) ==>
      TempFile(fileName) in disk.nodes && disk.nodes[TempFile(fileName)] == File(data)
  {
    stored := None;
    loaded := [];
    ghost var staged := disk.nodes;
    var buffer := ConvertUpload(disk, fileName, data, c);
    if buffer.None? {
      return ServerError, stored, loaded;
    }
    var finalFile := FinalFile(fileName, true);
    ghost var converted := disk.nodes;
    FinalOutsideConversion(staged, converted, TempFile(fileName), finalFile);
    ghost var written;
    r, written := Store(disk, finalFile, buffer.value, c.codec);
    if written {
      stored := Some(finalFile);
      loaded := c.codec.load(buffer.value).value;
      assert TempFile(fileName)[0] == "tmp" && finalFile[0] == "docs";
      StoredAfterConversion(staged, converted, disk.nodes, TempFile(fileName), finalFile);
    } else {
      assert disk.nodes - {TempFile(fileName)} == converted;
    }
  }

  /** The conversion leaves `docs/uploaded` and the stored file's path as they were. */
  lemma FinalOutsideConversion(before: map<Path, Node>, after: map<Path, Node>, temp: Path, final: Path)
    requires KeepsOutside(before, after, temp) && IsChild(temp, Tmp) && IsChild(final, Uploaded)
    ensures IsDirectory(before, Uploaded) ==> IsDirectory(after, Uploaded)
    ensures !IsDirectory(before, final) ==> !IsDirectory(after, final)
  {
    assert final !in Prefixes(TmpDir) && !IsChild(final, TmpDir) by {
      assert final[..2] == Uploaded;
    }
    assert Uploaded != temp && final != temp by {
      assert temp[0] == "tmp";
    }
  }
}
