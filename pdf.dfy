/** PDF documents as page sequences, files as paths with the outcome of
    reading them, and the page writer that operations fill in place. */
module Pdf {
  import opened Wrappers
  import opened Paths

  /** One page of a document. Its content is never inspected. */
  type Page(!new)

  /** A file an operation reads: its path and what reading it gives, `None`
      when opening or parsing it raises. */
  datatype PdfFile = PdfFile(path: Path, read: Option<seq<Page>>)

  /** A document an operation writes: where, and which pages. */
  datatype Written = Written(path: Path, pages: seq<Page>)

  /** A written document read back from disk. */
  function ReadBack(w: Written): PdfFile
  {
    PdfFile(w.path, Some(w.pages))
  }

  function ReadBackAll(ws: seq<Written>): (r: seq<PdfFile>)
    ensures |r| == |ws|
    ensures forall k :: 0 <= k < |ws| ==> r[k] == ReadBack(ws[k])
  {
    if ws == [] then [] else [ReadBack(ws[0])] + ReadBackAll(ws[1..])
  }

  /** The accumulating output document (`PdfWriter`): pages are only ever
      appended. */
  class PageWriter {
    var pages: seq<Page>

    constructor ()
      ensures pages == []
    {
      pages := [];
    }

    method AddPage(p: Page)
      modifies this
      ensures pages == old(pages) + [p]
    {
      pages := pages + [p];
    }
  }
}
