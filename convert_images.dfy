/**
 * `POST /api/convert-images`: every uploaded image that can be converted to PNG becomes
 * one page of a new PDF, sized to the image and filled by it; images that fail are skipped.
 */
module ConvertImages {
  import opened Wrappers
  import opened Files
  import opened Seqs
  import Staging

  /** An uploaded image: its file name and its bytes. */
  datatype Image = Image(name: string, data: Bytes)

  /** A PNG embedded in the PDF, with its size in points. */
  datatype Png = Png(width: nat, height: nat)

  datatype Drawing = Drawing(image: Png, x: int, y: int, width: nat, height: nat)

  datatype Page = Page(width: nat, height: nat, drawings: seq<Drawing>)

  datatype Body = PdfFile(pages: seq<Page>, contentType: string, disposition: string) | Failure(error: string)

  datatype Response = Response(status: int, body: Body)

  const NoImages := Response(400, Failure("No images provided"))
  const Failed := Response(500, Failure("Failed to convert images to PDF"))
  const ContentType := "application/pdf"
  const Disposition := "attachment; filename=\"converted-images.pdf\""

  /**
   * Reading an image, converting it to PNG and embedding it: the embedded image, or None
   * when any of the three steps threw.
   */
  type Convert = Image -> Option<Png>

  /** A PDF document under construction: its pages in order. */
  class PdfDocument {
    var pages: seq<Page>

    /** `PDFDocument.create()`. */
    constructor()
      ensures pages == []
    {
      pages := [];
    }

    /** `addPage([width, height])`: a blank page at the end; its index is returned. */
    method AddPage(width: nat, height: nat) returns (index: nat)
      modifies this
      ensures pages == old(pages) + [Page(width, height, [])]
      ensures index == |old(pages)| && index < |pages|
    {
      pages := pages + [Page(width, height, [])];
      index := |pages| - 1;
    }

    /** `page.drawImage(image, { x, y, width, height })` on the page at `index`. */
    method DrawImage(index: nat, image: Png, x: int, y: int, width: nat, height: nat)
      requires index < |pages|
      modifies this
      ensures |pages| == |old(pages)|
      ensures pages == old(pages)[index := old(pages)[index].(drawings := old(pages)[index].drawings + [Drawing(image, x, y, width, height)])]
    {
      var page := pages[index];
      pages := pages[index := page.(drawings := page.drawings + [Drawing(image, x, y, width, height)])];
    }
  }

  /** The page an image gets: its own size, with the image drawn over all of it. */
  function PageOf(png: Png): (page: Page)
    ensures page.width == png.width && page.height == png.height && |page.drawings| == 1
    ensures page.drawings[0] == Drawing(png, 0, 0, page.width, page.height)
  {
    Page(png.width, png.height, [Drawing(png, 0, 0, png.width, png.height)])
  }

  function Succeeds(convert: Convert): Image -> bool {
    (image: Image) => convert(image).Some?
  }

  /** The pages of the images that convert, one each, in upload order. */
  function Packed(images: seq<Image>, convert: Convert): (pages: seq<Page>)
    ensures |pages| == |Filter(images, Succeeds(convert))| && |pages| <= |images|
    ensures forall k :: 0 <= k < |pages| ==>
      var image := Filter(images, Succeeds(convert))[k];
      image in images && convert(image).Some? && pages[k] == PageOf(convert(image).value)
  {
    var converted := Filter(images, Succeeds(convert));
    seq(|converted|, k requires 0 <= k < |converted| => PageOf(convert(converted[k]).value))
  }

  /** Packing one more image adds its page when it converts, and nothing otherwise. */
  lemma PackedSnoc(images: seq<Image>, image: Image, convert: Convert)
    ensures Packed(images + [image], convert) ==
      Packed(images, convert) + (if convert(image).Some? then [PageOf(convert(image).value)] else [])
  {
    var p := Succeeds(convert);
    FilterAppend(images, [image], p);
    assert Filter([image], p) == (if p(image) then [image] else []) + Filter([], p);
  }

  /** When every image converts there is one page per image; when none does the PDF has no page. */
  lemma PackedExtremes(images: seq<Image>, convert: Convert)
    ensures (forall i :: 0 <= i < |images| ==> convert(images[i]).Some?) ==> |Packed(images, convert)| == |images|
    ensures (forall i :: 0 <= i < |images| ==> convert(images[i]).None?) ==> Packed(images, convert) == []
  {
    FilterKeepsAllWhen(images, Succeeds(convert));
    if forall i :: 0 <= i < |images| ==> convert(images[i]).None? {
      if Packed(images, convert) != [] {
        var image := Filter(images, Succeeds(convert))[0];
        assert image in images;
      }
    }
  }

  /** The packing loop: a new document with one page per image that converts, in order. */
  method Pack(files: seq<Image>, convert: Convert) returns (pdf: PdfDocument)
    ensures fresh(pdf) && pdf.pages == Packed(files, convert)
  {
    pdf := new PdfDocument();
    for i := 0 to |files|
      invariant pdf.pages == Packed(files[..i], convert)
    {
      PackedSnoc(files[..i], files[i], convert);
      assert files[..i + 1] == files[..i] + [files[i]];
      var png := convert(files[i]);
      if png.None? {
        continue;
      }
      ghost var before := pdf.pages;
      var page := pdf.AddPage(png.value.width, png.value.height);
      ghost var blank := pdf.pages;
      pdf.DrawImage(page, png.value, 0, 0, png.value.width, png.value.height);
      assert [] + [Drawing(png.value, 0, 0, png.value.width, png.value.height)] == PageOf(png.value).drawings;
      assert pdf.pages == blank[page := PageOf(png.value)];
      assert pdf.pages == before + [PageOf(png.value)];
    }
    assert files[..|files|] == files;
  }

  /**
   * `POST(req)`: `images` are the form's `images` entries, None when reading the form threw.
   * The `tmp` directory is made sure of first. Even when no image converts the answer is a
   * PDF, with no pages.
   */
  method Post(disk: Disk, images: Option<seq<Image>>, convert: Convert) returns (r: Response)
    requires disk.Valid()
    modifies disk
    ensures disk.Valid() && disk.nodes == Staging.Ensure(old(disk.nodes), Staging.Tmp)
    ensures r.status == 200 || r == NoImages || r == Failed
    ensures Staging.Tmp !in old(disk.nodes) && Blocked(old(disk.nodes), Staging.Tmp) ==> r == Failed
    ensures Staging.Tmp in old(disk.nodes) || !Blocked(old(disk.nodes), Staging.Tmp) ==>
      (images.None? ==> r == Failed) &&
      (images == Some([]) ==> r == NoImages) &&
      (images.Some? && images.value != [] ==>
        r == Response(200, PdfFile(Packed(images.value, convert), ContentType, Disposition)))
  {
    var dir := Staging.EnsureDirectoryExists(disk, Staging.Tmp);
    if dir.Err? || images.None? {
      return Failed;
    }
    var files := images.value;
    if |files| == 0 {
      return NoImages;
    }
    var pdf := Pack(files, convert);
    r := Response(200, PdfFile(pdf.pages, ContentType, Disposition));
  }
}
