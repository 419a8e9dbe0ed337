/** The page extractor (`extract_same_page_from_pdfs`): copies one fixed page
    of every PDF in a directory into a one-page document of its own. */
module Extractor {
  import opened Wrappers
  import opened Paths
  import opened Pdf
  import opened Listing

  /** What happens to one input file. */
  datatype Outcome = Copied(file: Written) | Skipped | Failed

  /** The file reads and has a page at `idx`. */
  predicate HasPage(f: PdfFile, idx: int)
  {
    f.read.Some? && 0 <= idx < |f.read.value|
  }

  /** The one-page document written for `f`, named after it. */
  function Extraction(f: PdfFile, outDir: Path, idx: int, prefix: string): Written
    requires HasPage(f, idx)
  {
    Written(Join(outDir, prefix + Key(f)), [f.read.value[idx]])
  }

  /** One iteration of the loop: a read that raises fails the file, an index
      outside the page range skips it, anything else copies the page. */
  function ExtractFile(f: PdfFile, outDir: Path, idx: int, prefix: string): Outcome
  {
    match f.read
    case None => Failed
    case Some(pages) =>
      if idx < 0 || idx >= |pages| then Skipped
      else Copied(Extraction(f, outDir, idx, prefix))
  }

  /** The documents written for `files`, in visiting order. */
  function Extracted(files: seq<PdfFile>, outDir: Path, idx: int, prefix: string): (r: seq<Written>)
    ensures forall w :: w in r ==>
      exists f :: f in files && HasPage(f, idx) && w == Extraction(f, outDir, idx, prefix)
  {
    if files == [] then []
    else
      (match ExtractFile(files[0], outDir, idx, prefix)
       case Copied(w) => [w]
       case _ => [])
      + Extracted(files[1..], outDir, idx, prefix)
  }

  /** The files that read and have a page at `idx`, in order. */
  function WithPage(files: seq<PdfFile>, idx: int): (r: seq<PdfFile>)
    ensures forall f :: f in r ==> f in files && HasPage(f, idx)
  {
    if files == [] then []
    else (if HasPage(files[0], idx) then [files[0]] else []) + WithPage(files[1..], idx)
  }

  lemma {:induction false} ExtractedAppend(a: seq<PdfFile>, b: seq<PdfFile>, outDir: Path, idx: int, prefix: string)
    ensures Extracted(a + b, outDir, idx, prefix)
         == Extracted(a, outDir, idx, prefix) + Extracted(b, outDir, idx, prefix)
  {
    if a == [] {
      assert a + b == b;
    } else {
      assert (a + b)[0] == a[0] && (a + b)[1..] == a[1..] + b;
      ExtractedAppend(a[1..], b, outDir, idx, prefix);
    }
  }

  lemma ExtractedStep(files: seq<PdfFile>, k: int, outDir: Path, idx: int, prefix: string)
    requires 0 <= k < |files|
    ensures Extracted(files[..k + 1], outDir, idx, prefix)
         == Extracted(files[..k], outDir, idx, prefix)
          + (if HasPage(files[k], idx) then [Extraction(files[k], outDir, idx, prefix)] else [])
  {
    assert files[..k + 1] == files[..k] + [files[k]];
    ExtractedAppend(files[..k], [files[k]], outDir, idx, prefix);
    assert [files[k]][1..] == [];
  }

  /** A file that fails or is skipped writes nothing and does not stop the
      files after it. */
  lemma ExtractedPassesOver(a: seq<PdfFile>, f: PdfFile, b: seq<PdfFile>, outDir: Path, idx: int, prefix: string)
    requires !HasPage(f, idx)
    ensures Extracted(a + [f] + b, outDir, idx, prefix)
         == Extracted(a, outDir, idx, prefix) + Extracted(b, outDir, idx, prefix)
  {
    ExtractedAppend(a + [f], b, outDir, idx, prefix);
    ExtractedAppend(a, [f], outDir, idx, prefix);
    assert [f][1..] == [];
  }

  /** Exactly the files with a page at `idx` produce a document, one each,
      in order: the k-th holds page `idx` of the k-th such file and is named
      `prefix` followed by that file's name. */
  lemma {:induction false} ExtractedIsCopyOfEachPage(files: seq<PdfFile>, outDir: Path, idx: int, prefix: string)
    ensures var r, h := Extracted(files, outDir, idx, prefix), WithPage(files, idx);
      |r| == |h| &&
      forall k :: 0 <= k < |r| ==>
        HasPage(h[k], idx) && r[k] == Written(Join(outDir, prefix + Key(h[k])), [h[k].read.value[idx]])
  {
    if files != [] {
      ExtractedIsCopyOfEachPage(files[1..], outDir, idx, prefix);
    }
  }

  /** Visiting a sorted listing of PDF files gives documents that are again
      PDF files sorted by name: the prefix does not reorder names. */
  lemma {:induction false} ExtractedSorted(files: seq<PdfFile>, outDir: Path, idx: int, prefix: string)
    requires SortedByName(files)
    requires forall f :: f in files ==> IsPdfName(Key(f))
    ensures SortedByName(ReadBackAll(Extracted(files, outDir, idx, prefix)))
    ensures forall g :: g in ReadBackAll(Extracted(files, outDir, idx, prefix)) ==> IsPdfName(Key(g))
  {
    var ws := ReadBackAll(Extracted(files, outDir, idx, prefix));
    forall g | g in ws ensures IsPdfName(Key(g)) {
      var k :| 0 <= k < |ws| && ws[k] == g;
      var f := ExtractionSource(files, outDir, idx, prefix, k);
    }
    if files != [] {
      var h, t := files[0], files[1..];
      SortedTail(files);
      ExtractedSorted(t, outDir, idx, prefix);
      var wt := ReadBackAll(Extracted(t, outDir, idx, prefix));
      if HasPage(h, idx) {
        var g0 := ReadBack(Extraction(h, outDir, idx, prefix));
        PrefixedPdfName(prefix, Key(h));
        JoinName(outDir, prefix + Key(h));
        assert ws == [g0] + wt by {
          assert Extracted(files, outDir, idx, prefix)
              == [Extraction(h, outDir, idx, prefix)] + Extracted(t, outDir, idx, prefix);
        }
        forall k | 0 <= k < |wt| ensures LexLe(Key(g0), Key(wt[k])) {
          var f := ExtractionSource(t, outDir, idx, prefix, k);
          var j :| 0 <= j < |t| && t[j] == f;
          assert files[j + 1] == f;
          LexLeCommonPrefix(prefix, Key(h), Key(f));
        }
        forall a, b | 0 <= a < b < |ws| ensures LexLe(Key(ws[a]), Key(ws[b])) {
          if a == 0 {
            assert ws[b] == wt[b - 1];
          } else {
            assert ws[a] == wt[a - 1] && ws[b] == wt[b - 1];
          }
        }
      } else {
        assert Extracted(files, outDir, idx, prefix) == Extracted(t, outDir, idx, prefix);
      }
    }
  }

  /** The input file the k-th written document comes from, and what that
      says about the document's name. */
  lemma ExtractionSource(files: seq<PdfFile>, outDir: Path, idx: int, prefix: string, k: int)
    returns (f: PdfFile)
    requires forall f :: f in files ==> IsPdfName(Key(f))
    requires 0 <= k < |Extracted(files, outDir, idx, prefix)|
    ensures f in files && HasPage(f, idx)
    ensures Extracted(files, outDir, idx, prefix)[k] == Extraction(f, outDir, idx, prefix)
    ensures Key(ReadBackAll(Extracted(files, outDir, idx, prefix))[k]) == prefix + Key(f)
    ensures IsPdfName(prefix + Key(f))
  {
    var w := Extracted(files, outDir, idx, prefix)[k];
    assert w in Extracted(files, outDir, idx, prefix);
    f :| f in files && HasPage(f, idx) && w == Extraction(f, outDir, idx, prefix);
    PrefixedPdfName(prefix, Key(f));
    JoinName(outDir, prefix + Key(f));
  }

  /** `extract_same_page_from_pdfs`: the output directory is
      `input_dir.parent / output_dir_arg`, and the documents written are those
      of the sorted PDF listing, visited in order. */
  method ExtractSamePage(inputDir: Path, dir: seq<PdfFile>, idx: int, outDirArg: string, prefix: string)
    returns (outDir: Path, written: seq<Written>)
    ensures outDir == OutputDir(inputDir, Some(outDirArg))
    ensures written == Extracted(PdfListing(dir), outDir, idx, prefix)
  {
    outDir := Join(Parent(inputDir), outDirArg);
    var files := PdfListing(dir);
    written := [];
    for k := 0 to |files|
      invariant written == Extracted(files[..k], outDir, idx, prefix)
    {
      var f := files[k];
      ExtractedStep(files, k, outDir, idx, prefix);
      if f.read.None? {
        // opening or parsing raised: the error is reported and the loop goes on
        continue;
      }
      var pages := f.read.value;
      var w := new PageWriter();
      if idx < 0 || idx >= |pages| {
        continue;
      }
      w.AddPage(pages[idx]);
      assert w.pages == [pages[idx]];
      assert HasPage(f, idx) && Written(Join(outDir, prefix + Key(f)), w.pages) == Extraction(f, outDir, idx, prefix);
      written := written + [Written(Join(outDir, prefix + Key(f)), w.pages)];
    }
    assert files[..|files|] == files;
  }
}
