# extract-pdf-pages, modelled in Dafny

`extract_pdf_pages/main.py` is a small tool that rebuilds a finished, signed
operating agreement from its clean copy plus one copy per investor, each
signed by that investor. It has five operations:

- the **page extractor** copies one fixed page out of every PDF in a directory;
- the **directory combiner** concatenates every PDF in a directory, in sorted order;
- the **range slicer** copies a page range out of one PDF;
- the **list combiner** concatenates PDFs in the caller's order;
- the **compiler** chains the four: the clean agreement's beginning, the
  manager's signature page, the investors' signature pages and the ending.

This project models the page arithmetic, the ordering, the skip and error
handling and the output naming of these operations. It proves how their
outputs relate to their inputs.

How things are represented:

- A document is a `seq<Page>`. `Page` is an opaque type.
- A file is a `PdfFile`: a path plus `Option<seq<Page>>`. `None` means that
  opening or parsing the file raises.
- A directory is its entries in whatever order the filesystem lists them.
  `Listing.PdfListing` models `sorted(dir.glob("*.pdf"))`. It keeps the names
  that end in `.pdf`, then applies a stable sort by name (Python's
  code-point order on `str`). All entries of one directory share a parent,
  so sorting their paths is the same as sorting their names.
- A path is a pathlib-style anchor plus a list of components, with
  `Name`, `Parent`, `Stem` and `/` (`Join`).
- Written documents are returned as `Written(path, pages)` values instead of
  being put on a disk.
- `pypdf`'s `PdfWriter` is the class `Pdf.PageWriter`. Its page list is only
  ever appended to, in place. The loops in the extractor, the combiners and
  the slicer are methods over that writer, each proved equal to a
  specification function. The properties are proved about those functions.

File by file:

- `wrappers.dfy`: the `Option` and `Result` types.
- `paths.dfy`: paths.
- `pdf.dfy`: pages, files and the writer.
- `listing.dfy`: the glob and the sort.
- `extractor.dfy`: the page extractor.
- `combiner.dfy`: both combiners.
- `slicer.dfy`: the range slicer.
- `compiler.dfy`: the whole workflow.

The compiler keeps the clean pages that come before the first signature page
and after the second one. So for signature pages `i` and `m` inside a clean
document of `P` pages, and `K` signed copies that have page `i`, the result
has `P - abs(i - m) + K` pages. The clean pages strictly between the two
signature pages are dropped. It comes to `P - 1 + K` only when the two pages
are adjacent, as in the integration test (`i = 28`, `m = 27`). The model
follows the code here (`Compiler.CompiledInRange`,
`Compiler.SignaturePageReplaced`).

## Model

| member | source | states |
|---|---|---|
| `Pdf.PageWriter.AddPage` | extract_pdf_pages/main.py:61 | the writer's page list grows by exactly the added page, at the end |
| `Paths.StemOfPdfName` | extract_pdf_pages/main.py:338 | the stem of a name `X.pdf` with a non-empty `X` is `X` (the last dot, neither first nor last, is cut off) |
| `Listing.GlobPdf` | extract_pdf_pages/main.py:49 | the glob keeps every entry whose name ends in `.pdf`, with its multiplicity, and no other entry |
| `Listing.SortByName` | extract_pdf_pages/main.py:49 | sorting is a permutation of the matched entries |
| `Listing.SortByNameSorted` | extract_pdf_pages/main.py:49 | the sorted listing is in non-decreasing name order |
| `Listing.SortByNameOfSorted` | extract_pdf_pages/main.py:111 | sorting an already sorted directory keeps its order |
| `Listing.SortedUnique` | extract_pdf_pages/main.py:49 | two name-sorted sequences with the same entries, where a name determines its entry, are equal |
| `Listing.ListingIgnoresOrder` | extract_pdf_pages/main.py:49 | the listing depends only on which entries the directory holds, not on the order the filesystem gives them |
| `Listing.LexLeCommonPrefix` | extract_pdf_pages/main.py:62-64 | putting the same prefix before two names does not change how they compare |
| `Extractor.Extracted` | extract_pdf_pages/main.py:49-69 | every written document is the page `idx` of an input file that reads and has that page, named after that file |
| `Extractor.ExtractedIsCopyOfEachPage` | extract_pdf_pages/main.py:55-64 | exactly the files that read and have `0 <= idx < len(pages)` produce a document, one each and in order; the k-th is `[pages[idx]]` of the k-th such file, written as `prefix + name` in the output directory |
| `Extractor.ExtractedPassesOver` | extract_pdf_pages/main.py:55-69 | a file that fails to read or lacks the page writes nothing, and the files after it are processed as if it were absent |
| `Extractor.ExtractedAppend` | extract_pdf_pages/main.py:49-69 | the extractor handles each file separately: extracting from `a + b` gives the results for `a`, then those for `b` |
| `Extractor.ExtractedSorted` | extract_pdf_pages/main.py:49-64 | from a sorted listing of PDFs, the written documents are PDFs again, still sorted by name once the prefix is added |
| `Extractor.ExtractSamePage` | extract_pdf_pages/main.py:11-73 | the output directory is `input_dir.parent / output_dir_arg`; the documents written are those of the sorted `*.pdf` listing, in that order |
| `Combiner.ConcatenatedAppend` | extract_pdf_pages/main.py:111-116 | combining `a + b` gives the pages of `a`, then those of `b` |
| `Combiner.ConcatenatedLayout` | extract_pdf_pages/main.py:226-231 | the k-th file's pages appear unchanged and in order, right after the pages of the files before it |
| `Combiner.ConcatenatedPassesOver` | extract_pdf_pages/main.py:112-119 | a file that raises adds no pages and does not stop the files after it |
| `Combiner.ConcatenatedLength` | extract_pdf_pages/main.py:111-116 | the output has as many pages as the readable inputs together |
| `Combiner.AddPagesOf` | extract_pdf_pages/main.py:113-119 | one loop iteration appends all of a readable file's pages in order, and nothing for a file that raises |
| `Combiner.CombineInDir` | extract_pdf_pages/main.py:76-129 | writes to `parent / output_dir_arg` (or the parent when the argument is `None`) under the given name; the pages are those of the sorted `*.pdf` listing, concatenated |
| `Combiner.CombineFromList` | extract_pdf_pages/main.py:194-244 | writes to the given directory under the given name; the pages are those of the files concatenated in exactly the caller's order |
| `Combiner.CombinedIgnoresListingOrder` | extract_pdf_pages/main.py:111 | the directory combiner's output is the same for every listing order of the same directory |
| `Combiner.CombineTwoFiles` | extract_pdf_pages/main.py:226-231 | `a.pdf` (2 pages) and `b.pdf` (3 pages) listed as `b, a`: the directory combiner gives a's pages then b's, and the list combiner given `[b, a]` gives b's then a's |
| `Slicer.SliceBound` | extract_pdf_pages/main.py:180 | a Python slice bound resolves to a position within `[0, n]`: unchanged inside it, `n` above it, counted from the end below 0 |
| `Slicer.SlicePdf` | extract_pdf_pages/main.py:132-191 | an unreadable input propagates as an error with its path; otherwise the pages of the resolved range are written to the output directory under the given name |
| `Slicer.SlicedInRange` | extract_pdf_pages/main.py:178-181 | for a clamped start `s` and a resolved end `e` with `0 <= s <= e`, the output has `e - s` pages, and page k is input page `s + k` |
| `Slicer.SlicedEmpty` | extract_pdf_pages/main.py:178-181 | a clamped start at or past a non-negative resolved end gives no pages |
| `Slicer.SlicedToEnd` | extract_pdf_pages/main.py:173-174 | an end of `-1` and an end of `None` both slice through the last page |
| `Slicer.SlicedNegativeEnd` | extract_pdf_pages/main.py:175-180 | an end below -1 is not clamped, so Python counts it from the end: the same as the end `max(0, n + end)` |
| `Slicer.SlicedIsContiguous` | extract_pdf_pages/main.py:180-181 | for any bounds, the output is a contiguous run `pages[lo..hi]` of the input |
| `Slicer.SlicedTenPages` | extract_pdf_pages/main.py:171-181 | on 10 pages: `2..5` gives pages 2, 3, 4; end `-1` gives everything from the start; start `-3` acts as start 0; end `1000` acts as end 10 |
| `Compiler.CompileFinal` | extract_pdf_pages/main.py:247-348 | running the extractor, the directory combiner, three slices and the list combiner in sequence gives the value `Compiled` describes |
| `Compiler.ExtractedPagesAreInvestorPages` | extract_pdf_pages/main.py:284-290 | read back and combined, the extracted documents hold exactly page `idx` of each input that has it, in order |
| `Compiler.InvestorSignaturesPages` | extract_pdf_pages/main.py:284-290 | the combined investor document is page `i` of every signed copy that has it, in the sorted order of the signed copies' names |
| `Compiler.InvestorPagesCount` | extract_pdf_pages/main.py:284-290 | the investor block has one page per signed copy that has page `i`, and so one per copy when every copy has it |
| `Compiler.CompiledUnreadable` | extract_pdf_pages/main.py:293-299 | an unreadable clean agreement aborts the workflow with the agreement's path |
| `Compiler.CompiledLayout` | extract_pdf_pages/main.py:319-344 | the final document is written next to the clean agreement; it is the beginning, then the manager page and the investor block (manager first exactly when `m < i`), then the ending |
| `Compiler.FinalPagesInRange` | extract_pdf_pages/main.py:293-334 | with both signature pages inside the document, the parts are plain ranges, and the length is `P - abs(i - m) + K` |
| `Compiler.CompiledInRange` | extract_pdf_pages/main.py:293-344 | with `0 <= min(i, m)` and `max(i, m) < P`: the result is `clean[..m] + [clean[m]] + block + clean[i+1..]` when `m < i`, and `clean[..i] + block + [clean[m]] + clean[m+1..]` otherwise; it has `P - abs(i - m) + K` pages |
| `Compiler.FinalPagesAdjacent` | extract_pdf_pages/main.py:319-334 | for adjacent signature pages, the result is the clean pages with page `i` replaced by the investor block |
| `Compiler.SignaturePageReplaced` | tests/test_compile_final.py:23-40 | for adjacent signature pages (the test uses 28 and 27), the final document is the clean one with its investor page replaced by the K investor pages: `P - 1 + K` pages |
| `Compiler.DefaultFinalName` | extract_pdf_pages/main.py:337-338 | without an explicit name, agreement `X.pdf` compiles to `X FINAL COMBINED.pdf` in the same directory |

## Left out

- Filesystem effects are not modelled: `glob`, `exists`/`mkdir`, `open` and
  writing bytes. Reads are given as inputs and writes are returned as values.
- Console printing is not modelled. It has no effect on the outputs.
- The `typer` commands (`extract`, `combine`, `slice`, `combine-list`,
  `compile-final`, extract_pdf_pages/main.py:351-450) are not modelled.
  They only forward their arguments and supply defaults; the model takes
  every argument explicitly.
- Page contents and the byte form of the written PDFs are not modelled.
  `Page` is opaque, so whether a copied page is byte-identical to its
  source, or whether a rerun produces identical bytes, cannot be stated.
  Every model function is deterministic.
- A read that raises part-way through a file is not modelled: the model
  reads each file entirely or not at all. In the combiners, pages added
  before such an error would stay in the output.
- A failing write in the extractor is not modelled. The source catches it
  and goes on, and the model assumes every write succeeds.
- Compiler.InvestorSignatures: the signature-page directory is taken to hold
  exactly the files the extractor has just written. PDFs left there by an
  earlier run would also be combined in the source, and that is not captured.
- An output overwriting a file that a later step reads is not modelled (for
  example, a clean agreement named `OA Beginning.pdf`).
- Paths.Join: pathlib splits an argument that holds a `/`, and lets an
  absolute argument replace the base. The model appends such an argument as
  a single component.
- Paths.Stem follows pathlib's rule as of Python 3.12 (the last dot must be
  neither the first nor the last character).
- Listing.PdfListing: case-insensitive globbing on platforms that use it is
  not modelled.
- The docstring of `slice_pdf` gives the end's default as 1, while the code's
  default is -1. The model has no defaults and follows the code's handling
  of -1 and `None`.
