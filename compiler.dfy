/** The compiler (`compile_final_signed_operating_agreement`): rebuilds the
    final agreement from the clean agreement and a directory of copies each
    signed by one investor. */
module Compiler {
  import opened Wrappers
  import opened Paths
  import opened Pdf
  import opened Listing
  import opened Extractor
  import opened Combiner
  import opened Slicer

  // The defaults the compiler relies on.
  const SigPagesDirName := "Investor Sig Pages"
  const SigPagePrefix := "Sig Page - "
  const SigPagesCombinedName := "Investor Sig Pages Combined.pdf"
  const BeginningName := "OA Beginning.pdf"
  const EndingName := "OA Ending.pdf"
  const ManagerPageName := "Manager Signature Page.pdf"
  const FinalSuffix := " FINAL COMBINED.pdf"

  /** The order of the four parts: the manager's page goes before the
      investor block exactly when it comes first in the clean document. */
  function Components<T>(beginning: T, manager: T, investors: T, ending: T, investorIdx: int, managerIdx: int): seq<T>
  {
    if managerIdx < investorIdx then [beginning, manager, investors, ending]
    else [beginning, investors, manager, ending]
  }

  /** The final document's name: the one given, or the clean agreement's stem
      followed by " FINAL COMBINED.pdf". */
  function FinalName(cleanPath: Path, outName: Option<string>): string
  {
    match outName
    case Some(name) => name
    case None => Stem(Name(cleanPath)) + FinalSuffix
  }

  /** Page `idx` of every file of `files` that has one, in order: the
      investor block. */
  function InvestorPages(files: seq<PdfFile>, idx: int): seq<Page>
  {
    if files == [] then []
    else (if HasPage(files[0], idx) then [files[0].read.value[idx]] else []) + InvestorPages(files[1..], idx)
  }

  /** Steps 1 and 2: the extracted signature pages, combined. The directory
      the combiner reads holds exactly the documents the extractor wrote. */
  function InvestorSignatures(signedDir: Path, signed: seq<PdfFile>, idx: int): Written
  {
    var sigDir := OutputDir(signedDir, Some(SigPagesDirName));
    var sigs := Extracted(PdfListing(signed), sigDir, idx, SigPagePrefix);
    Written(Join(OutputDir(sigDir, None), SigPagesCombinedName), Concatenated(PdfListing(ReadBackAll(sigs))))
  }

  /** Steps 3 to 6: the three slices of the clean pages `p`, written next to
      the clean agreement, and the investor document, in final order. */
  function Parts(cleanPath: Path, p: seq<Page>, investors: Written, i: int, m: int): seq<Written>
  {
    var cleanDir := OutputDir(cleanPath, None);
    var beginning := Written(Join(cleanDir, BeginningName), Sliced(p, 0, Some(Min(i, m))));
    var ending := Written(Join(cleanDir, EndingName), Sliced(p, Max(i, m) + 1, Some(-1)));
    var manager := Written(Join(cleanDir, ManagerPageName), Sliced(p, m, Some(m + 1)));
    Components(beginning, manager, investors, ending, i, m)
  }

  /** The whole workflow on values: `Err` with the clean agreement's path when
      it cannot be read, otherwise the final document. */
  function Compiled(clean: PdfFile, signedDir: Path, signed: seq<PdfFile>, investorIdx: int, managerIdx: int,
                    outName: Option<string>): Result<Written, Path>
  {
    if clean.read.None? then Err(clean.path)
    else
      var parts := Parts(clean.path, clean.read.value, InvestorSignatures(signedDir, signed, investorIdx),
                         investorIdx, managerIdx);
      Ok(Written(Join(Parent(clean.path), FinalName(clean.path, outName)), Concatenated(ReadBackAll(parts))))
  }

  /** `compile_final_signed_operating_agreement`: runs the extractor, the
      directory combiner, three slices and the list combiner in sequence. */
  method CompileFinal(clean: PdfFile, signedDir: Path, signed: seq<PdfFile>, investorIdx: int, managerIdx: int,
                      outName: Option<string>)
    returns (r: Result<Written, Path>)
    ensures r == Compiled(clean, signedDir, signed, investorIdx, managerIdx, outName)
  {
    var i, m := investorIdx, managerIdx;
    var sigDir, sigs := ExtractSamePage(signedDir, signed, i, SigPagesDirName, SigPagePrefix);
    var combined := CombineInDir(sigDir, ReadBackAll(sigs), None, SigPagesCombinedName);
    var beginning := SlicePdf(clean, 0, Some(Min(i, m)), None, BeginningName);
    if beginning.Err? {
      return Err(beginning.error);
    }
    var ending := SlicePdf(clean, Max(i, m) + 1, Some(-1), None, EndingName);
    var manager := SlicePdf(clean, m, Some(m + 1), None, ManagerPageName);
    var parts := Components(beginning.value, manager.value, combined, ending.value, i, m);
    var name := FinalName(clean.path, outName);
    var final := CombineFromList(ReadBackAll(parts), Parent(clean.path), name);
    r := Ok(final);
  }

  /** Read back, the extracted documents contribute exactly the investor
      block. */
  lemma {:induction false} ExtractedPagesAreInvestorPages(files: seq<PdfFile>, outDir: Path, idx: int, prefix: string)
    ensures Concatenated(ReadBackAll(Extracted(files, outDir, idx, prefix))) == InvestorPages(files, idx)
  {
    if files != [] {
      var ws := Extracted(files, outDir, idx, prefix);
      var rest := Extracted(files[1..], outDir, idx, prefix);
      ExtractedPagesAreInvestorPages(files[1..], outDir, idx, prefix);
      if HasPage(files[0], idx) {
        var w := Extraction(files[0], outDir, idx, prefix);
        assert ws == [w] + rest;
        assert ReadBackAll(ws) == [ReadBack(w)] + ReadBackAll(rest);
        assert ReadBackAll(ws)[1..] == ReadBackAll(rest);
      } else {
        assert ws == rest;
      }
    }
  }

  /** The combined investor document holds page `idx` of every signed copy
      that has it, in the sorted order of the signed copies' names: the
      prefix the extractor adds does not reorder them. */
  lemma InvestorSignaturesPages(signedDir: Path, signed: seq<PdfFile>, idx: int)
    ensures InvestorSignatures(signedDir, signed, idx).pages == InvestorPages(PdfListing(signed), idx)
  {
    var listing := PdfListing(signed);
    var sigDir := OutputDir(signedDir, Some(SigPagesDirName));
    var ws := ReadBackAll(Extracted(listing, sigDir, idx, SigPagePrefix));
    ListingIsSortedPdfs(signed);
    ExtractedSorted(listing, sigDir, idx, SigPagePrefix);
    ListingOfSortedPdfs(ws);
    ExtractedPagesAreInvestorPages(listing, sigDir, idx, SigPagePrefix);
  }

  /** The investor block has one page per signed copy that has the page. */
  lemma {:induction false} InvestorPagesCount(files: seq<PdfFile>, idx: int)
    ensures |InvestorPages(files, idx)| == |WithPage(files, idx)| <= |files|
    ensures (forall f :: f in files ==> HasPage(f, idx)) ==> |InvestorPages(files, idx)| == |files|
  {
    if files != [] {
      InvestorPagesCount(files[1..], idx);
      assert forall f :: f in files[1..] ==> f in files;
    }
  }

  lemma ConcatenatedFour(a: Written, b: Written, c: Written, d: Written)
    ensures Concatenated(ReadBackAll([a, b, c, d])) == a.pages + b.pages + c.pages + d.pages
  {
    var fs := ReadBackAll([a, b, c, d]);
    assert fs == [ReadBack(a)] + [ReadBack(b)] + [ReadBack(c)] + [ReadBack(d)];
    ConcatenatedAppend([ReadBack(a)] + [ReadBack(b)] + [ReadBack(c)], [ReadBack(d)]);
    ConcatenatedAppend([ReadBack(a)] + [ReadBack(b)], [ReadBack(c)]);
    ConcatenatedAppend([ReadBack(a)], [ReadBack(b)]);
    assert [ReadBack(a)][1..] == [] && [ReadBack(b)][1..] == [];
    assert [ReadBack(c)][1..] == [] && [ReadBack(d)][1..] == [];
  }

  /** An unreadable clean agreement aborts the workflow with its path. */
  lemma CompiledUnreadable(clean: PdfFile, signedDir: Path, signed: seq<PdfFile>, i: int, m: int, outName: Option<string>)
    requires clean.read.None?
    ensures Compiled(clean, signedDir, signed, i, m, outName) == Err(clean.path)
  {
  }

  /** The final pages from the clean pages `p` and the investor block `s`. */
  function FinalPages(p: seq<Page>, s: seq<Page>, i: int, m: int): seq<Page>
  {
    var b, mg, e := Sliced(p, 0, Some(Min(i, m))), Sliced(p, m, Some(m + 1)), Sliced(p, Max(i, m) + 1, Some(-1));
    if m < i then b + mg + s + e else b + s + mg + e
  }

  /** Read back and combined, the parts give the final pages. */
  lemma PartsPages(cleanPath: Path, p: seq<Page>, investors: Written, i: int, m: int)
    ensures Concatenated(ReadBackAll(Parts(cleanPath, p, investors, i, m))) == FinalPages(p, investors.pages, i, m)
  {
    var parts := Parts(cleanPath, p, investors, i, m);
    ConcatenatedFour(parts[0], parts[1], parts[2], parts[3]);
    assert parts == [parts[0], parts[1], parts[2], parts[3]];
  }

  /** The final document is written next to the clean agreement and is the
      beginning, the manager's page and the investor block (ordered by which
      signature page comes first) and the ending, one after another. */
  lemma CompiledLayout(clean: PdfFile, signedDir: Path, signed: seq<PdfFile>, i: int, m: int, outName: Option<string>)
    requires clean.read.Some?
    ensures var r := Compiled(clean, signedDir, signed, i, m, outName);
      r.Ok? && r.value.path == Join(Parent(clean.path), FinalName(clean.path, outName)) &&
      r.value.pages == FinalPages(clean.read.value, InvestorPages(PdfListing(signed), i), i, m)
  {
    var investors := InvestorSignatures(signedDir, signed, i);
    InvestorSignaturesPages(signedDir, signed, i);
    PartsPages(clean.path, clean.read.value, investors, i, m);
  }

  /** With both signature pages inside `p`, the slices are plain ranges. */
  lemma FinalPagesInRange(p: seq<Page>, s: seq<Page>, i: int, m: int)
    requires 0 <= Min(i, m) && Max(i, m) < |p|
    ensures FinalPages(p, s, i, m)
         == if m < i then p[..m] + [p[m]] + s + p[i + 1..] else p[..i] + s + [p[m]] + p[m + 1..]
    ensures |FinalPages(p, s, i, m)| == |p| - (if i < m then m - i else i - m) + |s|
  {
    assert Sliced(p, 0, Some(Min(i, m))) == p[..Min(i, m)];
    assert Sliced(p, m, Some(m + 1)) == [p[m]];
    assert Sliced(p, Max(i, m) + 1, Some(-1)) == p[Max(i, m) + 1..];
  }

  /** With both signature pages inside the clean document of P pages, the
      final document is the clean pages before the first signature page, the
      two signature parts, and the clean pages after the second one. The
      clean pages strictly between the two signature pages are not kept. */
  lemma CompiledInRange(clean: PdfFile, signedDir: Path, signed: seq<PdfFile>, i: int, m: int, outName: Option<string>)
    requires clean.read.Some?
    requires 0 <= Min(i, m) && Max(i, m) < |clean.read.value|
    ensures var r := Compiled(clean, signedDir, signed, i, m, outName);
      var p, s := clean.read.value, InvestorPages(PdfListing(signed), i);
      r.Ok? &&
      r.value.pages == (if m < i then p[..m] + [p[m]] + s + p[i + 1..] else p[..i] + s + [p[m]] + p[m + 1..]) &&
      |r.value.pages| == |p| - (if i < m then m - i else i - m) + |s|
  {
    CompiledLayout(clean, signedDir, signed, i, m, outName);
    FinalPagesInRange(clean.read.value, InvestorPages(PdfListing(signed), i), i, m);
  }

  /** Adjacent signature pages: the investor page is replaced by the block. */
  lemma FinalPagesAdjacent(p: seq<Page>, s: seq<Page>, i: int, m: int)
    requires i == m + 1 || m == i + 1
    requires 0 <= Min(i, m) && Max(i, m) < |p|
    ensures FinalPages(p, s, i, m) == p[..i] + s + p[i + 1..]
  {
    FinalPagesInRange(p, s, i, m);
    if m < i {
      assert p[..m] + [p[m]] == p[..i];
      assert p[..m] + [p[m]] + s + p[i + 1..] == p[..i] + s + p[i + 1..];
    } else {
      assert [p[m]] + p[m + 1..] == p[i + 1..];
      assert p[..i] + s + [p[m]] + p[m + 1..] == p[..i] + s + p[i + 1..];
    }
  }

  /** When the two signature pages are adjacent (the case the integration
      test exercises with investor page 28 and manager page 27), the final
      document is the clean one with its investor page replaced by the
      investor block: P - 1 + K pages for K signed copies having that page. */
  lemma SignaturePageReplaced(clean: PdfFile, signedDir: Path, signed: seq<PdfFile>, i: int, m: int, outName: Option<string>)
    requires clean.read.Some?
    requires i == m + 1 || m == i + 1
    requires 0 <= Min(i, m) && Max(i, m) < |clean.read.value|
    ensures var r := Compiled(clean, signedDir, signed, i, m, outName);
      var p, s := clean.read.value, InvestorPages(PdfListing(signed), i);
      r.Ok? && r.value.pages == p[..i] + s + p[i + 1..] &&
      |r.value.pages| == |p| - 1 + |WithPage(PdfListing(signed), i)|
  {
    CompiledLayout(clean, signedDir, signed, i, m, outName);
    FinalPagesAdjacent(clean.read.value, InvestorPages(PdfListing(signed), i), i, m);
    InvestorPagesCount(PdfListing(signed), i);
  }

  /** Without an explicit name, an agreement "X.pdf" compiles to
      "X FINAL COMBINED.pdf" in the same directory. */
  lemma DefaultFinalName(clean: PdfFile, signedDir: Path, signed: seq<PdfFile>, i: int, m: int, stem: string)
    requires clean.read.Some?
    requires |stem| > 0 && Name(clean.path) == stem + ".pdf"
    ensures var r := Compiled(clean, signedDir, signed, i, m, None);
      r.Ok? && r.value.path == Join(Parent(clean.path), stem + " FINAL COMBINED.pdf")
  {
    StemOfPdfName(stem);
  }
}
