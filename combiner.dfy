/** The directory combiner (`combine_pdfs_in_dir`) and the list combiner
    (`combine_pdfs_from_list`): both append every page of every file that
    reads to one accumulating document. */
module Combiner {
  import opened Wrappers
  import opened Paths
  import opened Pdf
  import opened Listing

  /** What one file adds to the output: all its pages, or none when reading
      it raises. */
  function Contribution(f: PdfFile): seq<Page>
  {
    if f.read.Some? then f.read.value else []
  }

  /** The pages of `files`, one file after another. */
  function Concatenated(files: seq<PdfFile>): seq<Page>
  {
    if files == [] then [] else Contribution(files[0]) + Concatenated(files[1..])
  }

  lemma {:induction false} ConcatenatedAppend(a: seq<PdfFile>, b: seq<PdfFile>)
    ensures Concatenated(a + b) == Concatenated(a) + Concatenated(b)
  {
    if a == [] {
      assert a + b == b;
    } else {
      assert (a + b)[0] == a[0] && (a + b)[1..] == a[1..] + b;
      ConcatenatedAppend(a[1..], b);
    }
  }

  lemma ConcatenatedStep(files: seq<PdfFile>, k: int)
    requires 0 <= k < |files|
    ensures Concatenated(files[..k + 1]) == Concatenated(files[..k]) + Contribution(files[k])
  {
    assert files[..k + 1] == files[..k] + [files[k]];
    ConcatenatedAppend(files[..k], [files[k]]);
    assert [files[k]][1..] == [];
  }

  /** The pages of the k-th file sit, unchanged and in order, right after
      those of the files before it. */
  lemma ConcatenatedLayout(files: seq<PdfFile>, k: int)
    requires 0 <= k < |files|
    ensures Concatenated(files)
         == Concatenated(files[..k]) + Contribution(files[k]) + Concatenated(files[k + 1..])
  {
    assert files == files[..k + 1] + files[k + 1..];
    ConcatenatedAppend(files[..k + 1], files[k + 1..]);
    ConcatenatedStep(files, k);
  }

  /** A file whose read raises adds no pages and does not stop the files
      after it. */
  lemma ConcatenatedPassesOver(a: seq<PdfFile>, f: PdfFile, b: seq<PdfFile>)
    requires f.read.None?
    ensures Concatenated(a + [f] + b) == Concatenated(a) + Concatenated(b)
  {
    ConcatenatedAppend(a + [f], b);
    ConcatenatedAppend(a, [f]);
    ConcatenatedSingle(f);
  }

  lemma ConcatenatedSingle(f: PdfFile)
    ensures Concatenated([f]) == Contribution(f)
  {
    assert [f][1..] == [];
  }

  /** The output holds as many pages as the readable files together. */
  function PageCount(files: seq<PdfFile>): nat
  {
    if files == [] then 0 else |Contribution(files[0])| + PageCount(files[1..])
  }

  lemma {:induction false} ConcatenatedLength(files: seq<PdfFile>)
    ensures |Concatenated(files)| == PageCount(files)
  {
    if files != [] {
      ConcatenatedLength(files[1..]);
    }
  }

  /** The body of both combiners' loops: `for page in input_file.pages:
      output_file.add_page(page)` for a file that reads, nothing (the error
      is reported) for one that raises. */
  method AddPagesOf(w: PageWriter, f: PdfFile)
    modifies w
    ensures w.pages == old(w.pages) + Contribution(f)
  {
    match f.read {
      case None =>
      case Some(pages) =>
        for j := 0 to |pages|
          invariant w.pages == old(w.pages) + pages[..j]
        {
          assert pages[..j + 1] == pages[..j] + [pages[j]];
          w.AddPage(pages[j]);
        }
        assert pages[..|pages|] == pages;
    }
  }

  /** `combine_pdfs_in_dir`: the sorted PDF listing's pages, in order, written
      to `output_dir_arg` under the input directory's parent (or to that
      parent itself). */
  method CombineInDir(inputDir: Path, dir: seq<PdfFile>, outDirArg: Option<string>, outName: string)
    returns (out: Written)
    ensures out.path == Join(OutputDir(inputDir, outDirArg), outName)
    ensures out.pages == Concatenated(PdfListing(dir))
  {
    var outDir := OutputDir(inputDir, outDirArg);
    var w := new PageWriter();
    var files := PdfListing(dir);
    for k := 0 to |files|
      invariant w.pages == Concatenated(files[..k])
    {
      ConcatenatedStep(files, k);
      AddPagesOf(w, files[k]);
    }
    assert files[..|files|] == files;
    out := Written(Join(outDir, outName), w.pages);
  }

  /** `combine_pdfs_from_list`: the pages of the files in exactly the
      caller's order, written to `outDir`. */
  method CombineFromList(files: seq<PdfFile>, outDir: Path, outName: string)
    returns (out: Written)
    ensures out.path == Join(outDir, outName)
    ensures out.pages == Concatenated(files)
  {
    var w := new PageWriter();
    for k := 0 to |files|
      invariant w.pages == Concatenated(files[..k])
    {
      ConcatenatedStep(files, k);
      AddPagesOf(w, files[k]);
    }
    assert files[..|files|] == files;
    out := Written(Join(outDir, outName), w.pages);
  }

  /** The directory combiner's output depends only on which files the
      directory holds, never on the order they are listed in. */
  lemma CombinedIgnoresListingOrder(dir1: seq<PdfFile>, dir2: seq<PdfFile>)
    requires UniqueNames(dir1)
    requires multiset(dir1) == multiset(dir2)
    ensures Concatenated(PdfListing(dir1)) == Concatenated(PdfListing(dir2))
  {
    ListingIgnoresOrder(dir1, dir2);
  }

  /** Two files whose names are in strictly the opposite order are swapped
      by the sort. */
  lemma SortSwapsTwo(a: PdfFile, b: PdfFile)
    requires LexLe(Key(a), Key(b)) && !LexLe(Key(b), Key(a))
    ensures SortByName([b, a]) == [a, b]
  {
    assert [b, a][1..] == [a] && [a][1..] == [];
    assert SortByName([a]) == [a];
    assert [a][1..] == [];
  }

  lemma ConcatenatedTwo(a: PdfFile, b: PdfFile)
    ensures Concatenated([a, b]) == Contribution(a) + Contribution(b)
  {
    ConcatenatedAppend([a], [b]);
    ConcatenatedSingle(a);
    ConcatenatedSingle(b);
    assert [a] + [b] == [a, b];
  }

  lemma NamesAB()
    ensures LexLe("a.pdf", "b.pdf") && !LexLe("b.pdf", "a.pdf")
    ensures IsPdfName("a.pdf") && IsPdfName("b.pdf")
  {
    var a, b := "a.pdf", "b.pdf";
    assert a[0] == 'a' && b[0] == 'b';
    assert a[|a| - 4..] == ".pdf" && b[|b| - 4..] == ".pdf";
  }

  /** Combining "a.pdf" (2 pages) and "b.pdf" (3 pages), listed b first, gives
      a's pages then b's; the list combiner given [b, a] keeps b first. */
  lemma CombineTwoFiles(d: Path, a0: Page, a1: Page, b0: Page, b1: Page, b2: Page)
    ensures var a := PdfFile(Join(d, "a.pdf"), Some([a0, a1]));
            var b := PdfFile(Join(d, "b.pdf"), Some([b0, b1, b2]));
            Concatenated(PdfListing([b, a])) == [a0, a1, b0, b1, b2] &&
            Concatenated([b, a]) == [b0, b1, b2, a0, a1]
  {
    var a := PdfFile(Join(d, "a.pdf"), Some([a0, a1]));
    var b := PdfFile(Join(d, "b.pdf"), Some([b0, b1, b2]));
    JoinName(d, "a.pdf");
    JoinName(d, "b.pdf");
    NamesAB();
    assert forall f :: f in [b, a] ==> IsPdfName(Key(f));
    GlobPdfKeepsPdfs([b, a]);
    SortSwapsTwo(a, b);
    ConcatenatedTwo(a, b);
    ConcatenatedTwo(b, a);
  }
}
