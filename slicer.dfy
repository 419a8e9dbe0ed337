/** The range slicer (`slice_pdf`): copies the pages `[start, end)` of one
    document, with Python's slice semantics, into a new document. */
module Slicer {
  import opened Wrappers
  import opened Paths
  import opened Pdf

  function Min(a: int, b: int): int { if a <= b then a else b }

  function Max(a: int, b: int): int { if a >= b then a else b }

  /** How a Python slice bound is resolved against a length `n`: a negative
      bound counts from the end, and the result is clamped to `[0, n]`. */
  function SliceBound(k: int, n: nat): (r: nat)
    ensures r <= n
    ensures 0 <= k <= n ==> r == k
    ensures k > n ==> r == n
    ensures k < 0 ==> r == Max(0, n + k)
  {
    if k < 0 then (if k + n < 0 then 0 else k + n)
    else if k > n then n
    else k
  }

  /** `s[lo:hi]` on a Python sequence. */
  function PySlice(s: seq<Page>, lo: int, hi: int): seq<Page>
  {
    var a, b := SliceBound(lo, |s|), SliceBound(hi, |s|);
    if a < b then s[a..b] else []
  }

  /** The end bound `slice_pdf` uses: -1 and None mean "to the end", anything
      else is capped at the page count. Values below -1 stay negative. */
  function ResolvedEnd(n: nat, end: Option<int>): int
  {
    var e := if end == None || end == Some(-1) then n else end.value;
    Min(n, e)
  }

  /** The start bound `slice_pdf` uses: raised to at least 0. */
  function ClampedStart(start: int): int
  {
    Max(0, start)
  }

  /** The pages `slice_pdf` copies. */
  function Sliced(pages: seq<Page>, start: int, end: Option<int>): seq<Page>
  {
    PySlice(pages, ClampedStart(start), ResolvedEnd(|pages|, end))
  }

  /** `slice_pdf`: reads the input (a read that raises is propagated as
      `Err` with the input's path), copies the resolved range page by page,
      and writes the result under the output directory. */
  method SlicePdf(input: PdfFile, start: int, end: Option<int>, outDirArg: Option<string>, outName: string)
    returns (r: Result<Written, Path>)
    ensures input.read.None? ==> r == Err(input.path)
    ensures input.read.Some? ==>
      r == Ok(Written(Join(OutputDir(input.path, outDirArg), outName), Sliced(input.read.value, start, end)))
  {
    var outDir := OutputDir(input.path, outDirArg);
    var w := new PageWriter();
    if input.read.None? {
      return Err(input.path);
    }
    var pages := input.read.value;
    var numPages := |pages|;
    var endActual := ResolvedEnd(numPages, end);
    var startActual := ClampedStart(start);
    var chosen := PySlice(pages, startActual, endActual);
    for k := 0 to |chosen|
      invariant w.pages == chosen[..k]
    {
      assert chosen[..k + 1] == chosen[..k] + [chosen[k]];
      w.AddPage(chosen[k]);
    }
    assert chosen[..|chosen|] == chosen;
    r := Ok(Written(Join(outDir, outName), w.pages));
  }

  /** Inside the document's range the slice is exactly `end - start` pages,
      page k of the output being page `start + k` of the input. */
  lemma SlicedInRange(pages: seq<Page>, start: int, end: Option<int>)
    requires 0 <= ClampedStart(start) <= ResolvedEnd(|pages|, end)
    ensures var s, e, r := ClampedStart(start), ResolvedEnd(|pages|, end), Sliced(pages, start, end);
      |r| == e - s && forall k :: 0 <= k < |r| ==> r[k] == pages[s + k]
  {
  }

  /** A start at or past the (non-negative) end gives no pages. */
  lemma SlicedEmpty(pages: seq<Page>, start: int, end: Option<int>)
    requires ClampedStart(start) >= ResolvedEnd(|pages|, end) >= 0
    ensures Sliced(pages, start, end) == []
  {
  }

  /** -1 and None both mean "through the last page". */
  lemma SlicedToEnd(pages: seq<Page>, start: int)
    requires start <= |pages|
    ensures Sliced(pages, start, None) == pages[ClampedStart(start)..]
    ensures Sliced(pages, start, Some(-1)) == pages[ClampedStart(start)..]
  {
  }

  /** An end below -1 is not clamped by `slice_pdf`: Python counts it from
      the end of the document, so it acts like the end `n + end` (or 0). */
  lemma SlicedNegativeEnd(pages: seq<Page>, start: int, end: int)
    requires end < -1
    ensures Sliced(pages, start, Some(end)) == Sliced(pages, start, Some(Max(0, |pages| + end)))
  {
  }

  /** Whatever the bounds, the output is a contiguous run of the input's pages. */
  lemma SlicedIsContiguous(pages: seq<Page>, start: int, end: Option<int>)
    ensures exists lo, hi :: 0 <= lo <= hi <= |pages| && Sliced(pages, start, end) == pages[lo..hi]
  {
    var n := |pages|;
    var a, b := SliceBound(ClampedStart(start), n), SliceBound(ResolvedEnd(n, end), n);
    if a < b {
      assert Sliced(pages, start, end) == pages[a..b];
    } else {
      assert Sliced(pages, start, end) == pages[a..a];
    }
  }

  /** On a 10-page document: start 2 and end 5 give pages 2, 3 and 4; end -1
      gives everything from the start; start -3 acts as 0; end 1000 as 10. */
  lemma SlicedTenPages(pages: seq<Page>, start: int)
    requires |pages| == 10 && 0 <= start <= 10
    ensures Sliced(pages, 2, Some(5)) == [pages[2], pages[3], pages[4]]
    ensures Sliced(pages, start, Some(-1)) == pages[start..]
    ensures Sliced(pages, -3, Some(5)) == Sliced(pages, 0, Some(5))
    ensures Sliced(pages, start, Some(1000)) == Sliced(pages, start, Some(10)) == pages[start..]
  {
  }
}
