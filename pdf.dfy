/**
 * The slice of the PDF library the server relies on: a document as a list of pages,
 * pages as the text marks drawn on them, and the library's load and save as oracles.
 */
module Pdf {
  import opened Wrappers
  import opened Files

  /** Text drawn with its baseline starting at (x, y), in tenths of a point from the bottom-left corner, at `size` points. */
  datatype Mark = Text(text: string, x: int, y: int, size: int)

  /** A page of `width` by `height` tenths of a point with the marks drawn on it, in drawing order. */
  datatype Page = Page(width: int, height: int, marks: seq<Mark>)

  /** `PDFDocument.load` (None when it throws) and `PDFDocument.save`, which the model does not look inside. */
  datatype Codec = Codec(load: Bytes -> Option<seq<Page>>, save: seq<Page> -> Bytes)

  /** `pages` with `mark` drawn on the last page, after the marks already there. */
  function WithMark(pages: seq<Page>, mark: Mark): (r: seq<Page>)
    requires pages != []
    ensures |r| == |pages| && r[..|r| - 1] == pages[..|pages| - 1]
    ensures r[|r| - 1].marks == pages[|pages| - 1].marks + [mark]
  {
    var last := pages[|pages| - 1];
    pages[..|pages| - 1] + [last.(marks := last.marks + [mark])]
  }

  /** A document under construction: `PDFDocument.create()` and its pages. */
  class Document {
    var pages: seq<Page>

    constructor()
      ensures pages == []
    {
      pages := [];
    }

    /** `addPage([width, height])`: a new blank page at the end. */
    method AddPage(width: int, height: int)
      modifies this
      ensures pages == old(pages) + [Page(width, height, [])]
    {
      pages := pages + [Page(width, height, [])];
    }

    /** `addPage(page)` with a page copied from another document. */
    method AddCopiedPage(page: Page)
      modifies this
      ensures pages == old(pages) + [page]
    {
      pages := pages + [page];
    }

    /** `page.drawText(...)` on the most recently added page. */
    method DrawText(mark: Mark)
      requires pages != []
      modifies this
      ensures pages == WithMark(old(pages), mark)
    {
      pages := WithMark(pages, mark);
    }
  }
}
