/** How a directory becomes the sequence of files an operation visits:
    `sorted(dir.glob("*.pdf"))`. A directory is given as its entries in
    whatever order the filesystem lists them. All entries of one directory
    share a parent, so ordering the paths is ordering their names. */
module Listing {
  import opened Paths
  import opened Pdf

  /** Python's `<=` on strings: lexicographic by code point. */
  predicate LexLe(a: string, b: string)
    decreases |a|
  {
    |a| == 0 || (|b| > 0 && (a[0] < b[0] || (a[0] == b[0] && LexLe(a[1..], b[1..]))))
  }

  lemma {:induction false} LexLeTotal(a: string, b: string)
    ensures LexLe(a, b) || LexLe(b, a)
    decreases |a|
  {
    if |a| > 0 && |b| > 0 && a[0] == b[0] {
      LexLeTotal(a[1..], b[1..]);
    }
  }

  lemma {:induction false} LexLeTrans(a: string, b: string, c: string)
    requires LexLe(a, b) && LexLe(b, c)
    ensures LexLe(a, c)
    decreases |a|
  {
    if |a| > 0 && a[0] == b[0] && b[0] == c[0] {
      LexLeTrans(a[1..], b[1..], c[1..]);
    }
  }

  lemma {:induction false} LexLeAntisym(a: string, b: string)
    requires LexLe(a, b) && LexLe(b, a)
    ensures a == b
    decreases |a|
  {
    if |a| > 0 {
      LexLeAntisym(a[1..], b[1..]);
      assert a == [a[0]] + a[1..] && b == [b[0]] + b[1..];
    }
  }

  /** A common prefix does not change how two names compare. */
  lemma {:induction false} LexLeCommonPrefix(p: string, a: string, b: string)
    ensures LexLe(p + a, p + b) <==> LexLe(a, b)
    decreases |p|
  {
    if |p| == 0 {
      assert p + a == a && p + b == b;
    } else {
      assert (p + a)[1..] == p[1..] + a && (p + b)[1..] == p[1..] + b;
      LexLeCommonPrefix(p[1..], a, b);
    }
  }

  /** The sort key of a file. */
  function Key(f: PdfFile): string
  {
    Name(f.path)
  }

  ghost predicate SortedByName(fs: seq<PdfFile>)
  {
    forall j, k :: 0 <= j < k < |fs| ==> LexLe(Key(fs[j]), Key(fs[k]))
  }

  /** A directory never holds two different entries under one name. */
  ghost predicate UniqueNames(fs: seq<PdfFile>)
  {
    forall f, g :: f in fs && g in fs && Key(f) == Key(g) ==> f == g
  }

  /** The entries matching "*.pdf", in listing order. */
  function GlobPdf(fs: seq<PdfFile>): (r: seq<PdfFile>)
    ensures forall f :: multiset(r)[f] == if IsPdfName(Key(f)) then multiset(fs)[f] else 0
  {
    if fs == [] then []
    else
      assert fs == [fs[0]] + fs[1..];
      (if IsPdfName(Key(fs[0])) then [fs[0]] else []) + GlobPdf(fs[1..])
  }

  /** Places `f` before the first entry whose name it does not exceed, so
      that among equal names the earlier entry stays first (a stable sort). */
  function Insert(f: PdfFile, fs: seq<PdfFile>): (r: seq<PdfFile>)
    ensures multiset(r) == multiset(fs) + multiset{f}
  {
    if fs == [] || LexLe(Key(f), Key(fs[0])) then [f] + fs
    else
      assert fs == [fs[0]] + fs[1..];
      [fs[0]] + Insert(f, fs[1..])
  }

  /** Python's `sorted` on the paths of one directory. */
  function SortByName(fs: seq<PdfFile>): (r: seq<PdfFile>)
    ensures multiset(r) == multiset(fs)
  {
    if fs == [] then []
    else
      assert fs == [fs[0]] + fs[1..];
      Insert(fs[0], SortByName(fs[1..]))
  }

  /** `sorted(dir.glob("*.pdf"))`. */
  function PdfListing(dir: seq<PdfFile>): seq<PdfFile>
  {
    SortByName(GlobPdf(dir))
  }

  lemma {:induction false} InsertSorted(f: PdfFile, fs: seq<PdfFile>)
    requires SortedByName(fs)
    ensures SortedByName(Insert(f, fs))
  {
    if fs == [] || LexLe(Key(f), Key(fs[0])) {
      var r := [f] + fs;
      forall j, k | 0 <= j < k < |r| ensures LexLe(Key(r[j]), Key(r[k])) {
        if j == 0 {
          if k > 1 {
            LexLeTrans(Key(f), Key(fs[0]), Key(fs[k - 1]));
          }
        } else {
          assert r[j] == fs[j - 1] && r[k] == fs[k - 1];
        }
      }
    } else {
      LexLeTotal(Key(f), Key(fs[0]));
      var tail := fs[1..];
      SortedTail(fs);
      InsertSorted(f, tail);
      var rest := Insert(f, tail);
      var r := [fs[0]] + rest;
      forall k | 0 <= k < |rest| ensures LexLe(Key(fs[0]), Key(rest[k])) {
        assert rest[k] in multiset(rest);
        if rest[k] != f {
          assert rest[k] in multiset(tail);
          var j :| 0 <= j < |tail| && tail[j] == rest[k];
          assert fs[j + 1] == rest[k];
        }
      }
      forall j, k | 0 <= j < k < |r| ensures LexLe(Key(r[j]), Key(r[k])) {
        if j == 0 {
          assert r[k] == rest[k - 1];
        } else {
          assert r[j] == rest[j - 1] && r[k] == rest[k - 1];
        }
      }
    }
  }

  /** The listing is sorted by name. */
  lemma {:induction false} SortByNameSorted(fs: seq<PdfFile>)
    ensures SortedByName(SortByName(fs))
  {
    if fs != [] {
      SortByNameSorted(fs[1..]);
      InsertSorted(fs[0], SortByName(fs[1..]));
    }
  }

  /** Sorting a sorted sequence changes nothing. */
  lemma {:induction false} SortByNameOfSorted(fs: seq<PdfFile>)
    requires SortedByName(fs)
    ensures SortByName(fs) == fs
  {
    if fs != [] {
      var tail := fs[1..];
      SortedTail(fs);
      SortByNameOfSorted(tail);
      assert fs == [fs[0]] + tail;
    }
  }

  lemma SortedTail(s: seq<PdfFile>)
    requires SortedByName(s) && s != []
    ensures SortedByName(s[1..])
  {
    var t := s[1..];
    forall a, b | 0 <= a < b < |t| ensures LexLe(Key(t[a]), Key(t[b])) {
      assert t[a] == s[a + 1] && t[b] == s[b + 1];
    }
  }

  /** Two sorted, non-empty sequences with the same entries, where a name
      determines the entry, start with the same entry. */
  lemma SortedSameHead(s: seq<PdfFile>, t: seq<PdfFile>)
    requires SortedByName(s) && SortedByName(t) && s != [] && t != []
    requires multiset(s) == multiset(t)
    requires UniqueNames(s)
    ensures s[0] == t[0]
  {
    assert s[0] in multiset(t) && t[0] in multiset(s);
    var j :| 0 <= j < |t| && t[j] == s[0];
    var i :| 0 <= i < |s| && s[i] == t[0];
    if i > 0 && j > 0 {
      assert LexLe(Key(s[0]), Key(t[0])) && LexLe(Key(t[0]), Key(s[0]));
      LexLeAntisym(Key(s[0]), Key(t[0]));
    }
  }

  /** Two sorted sequences with the same entries, where a name determines the
      entry, are the same sequence. */
  lemma {:induction false} SortedUnique(s: seq<PdfFile>, t: seq<PdfFile>)
    requires SortedByName(s) && SortedByName(t)
    requires multiset(s) == multiset(t)
    requires UniqueNames(s)
    ensures s == t
    decreases |s|
  {
    assert |t| == |multiset(t)| == |multiset(s)| == |s|;
    if s != [] {
      SortedSameHead(s, t);
      assert s == [s[0]] + s[1..] && t == [t[0]] + t[1..];
      assert multiset(s[1..]) == multiset(s) - multiset{s[0]};
      assert multiset(t[1..]) == multiset(t) - multiset{t[0]};
      SortedTail(s);
      SortedTail(t);
      UniqueNamesWithin(s[1..], s);
      SortedUnique(s[1..], t[1..]);
    }
  }

  /** Every listed file is a PDF entry of the directory, and the listing is
      sorted. */
  lemma ListingIsSortedPdfs(dir: seq<PdfFile>)
    ensures SortedByName(PdfListing(dir))
    ensures forall f :: f in PdfListing(dir) ==> f in dir && IsPdfName(Key(f))
  {
    SortByNameSorted(GlobPdf(dir));
    forall f | f in PdfListing(dir) ensures f in dir && IsPdfName(Key(f)) {
      assert f in multiset(PdfListing(dir));
      assert f in multiset(GlobPdf(dir));
    }
  }

  /** A sequence already sorted and made of PDF names is its own listing. */
  lemma ListingOfSortedPdfs(fs: seq<PdfFile>)
    requires SortedByName(fs)
    requires forall f :: f in fs ==> IsPdfName(Key(f))
    ensures PdfListing(fs) == fs
  {
    assert GlobPdf(fs) == fs by {
      GlobPdfKeepsPdfs(fs);
    }
    SortByNameOfSorted(fs);
  }

  lemma {:induction false} GlobPdfKeepsPdfs(fs: seq<PdfFile>)
    requires forall f :: f in fs ==> IsPdfName(Key(f))
    ensures GlobPdf(fs) == fs
  {
    if fs != [] {
      assert fs[0] in fs;
      GlobPdfKeepsPdfs(fs[1..]);
      assert fs == [fs[0]] + fs[1..];
    }
  }

  lemma UniqueNamesWithin(a: seq<PdfFile>, b: seq<PdfFile>)
    requires forall f :: f in a ==> f in b
    requires UniqueNames(b)
    ensures UniqueNames(a)
  {
  }

  lemma GlobPdfSameEntries(dir1: seq<PdfFile>, dir2: seq<PdfFile>)
    requires multiset(dir1) == multiset(dir2)
    ensures multiset(GlobPdf(dir1)) == multiset(GlobPdf(dir2))
  {
    forall f ensures multiset(GlobPdf(dir1))[f] == multiset(GlobPdf(dir2))[f] { }
  }

  /** The listing depends only on which entries the directory holds, not on
      the order the filesystem lists them in. */
  lemma ListingIgnoresOrder(dir1: seq<PdfFile>, dir2: seq<PdfFile>)
    requires UniqueNames(dir1)
    requires multiset(dir1) == multiset(dir2)
    ensures PdfListing(dir1) == PdfListing(dir2)
  {
    GlobPdfSameEntries(dir1, dir2);
    SortByNameSorted(GlobPdf(dir1));
    SortByNameSorted(GlobPdf(dir2));
    ListingIsSortedPdfs(dir1);
    UniqueNamesWithin(PdfListing(dir1), dir1);
    SortedUnique(PdfListing(dir1), PdfListing(dir2));
  }
}
