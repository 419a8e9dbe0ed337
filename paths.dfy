/** Filesystem paths as `pathlib` sees them: an anchor ("" for a relative
    path, "/" for an absolute one) followed by the path's components. */
module Paths {
  import opened Wrappers

  datatype Path = Path(anchor: string, parts: seq<string>)

  /** `Path.name`: the last component, or "" when there is none. */
  function Name(p: Path): string
  {
    if |p.parts| == 0 then "" else p.parts[|p.parts| - 1]
  }

  /** `Path.parent`: the path without its last component; the anchor (or the
      empty relative path ".") is its own parent. */
  function Parent(p: Path): Path
  {
    if |p.parts| == 0 then p else Path(p.anchor, p.parts[..|p.parts| - 1])
  }

  /** `p / c` for a single component `c`: pathlib drops "" and "." and
      otherwise appends the component. */
  function Join(p: Path, c: string): Path
  {
    if c == "" || c == "." then p else Path(p.anchor, p.parts + [c])
  }

  /** The directory an operation writes into: the parent of its input, or the
      sub-directory `arg` of that parent when one is given. */
  function OutputDir(input: Path, arg: Option<string>): Path
  {
    match arg
    case None => Parent(input)
    case Some(sub) => Join(Parent(input), sub)
  }

  /** `str.rfind(c)`: the last index holding `c`, or -1. */
  function RFind(s: string, c: char): (i: int)
    ensures -1 <= i < |s|
    ensures i >= 0 ==> s[i] == c
    ensures forall k :: i < k < |s| ==> s[k] != c
  {
    if |s| == 0 then -1
    else if s[|s| - 1] == c then |s| - 1
    else RFind(s[..|s| - 1], c)
  }

  /** `PurePath.stem` of a name: everything before the last dot, provided that
      dot is neither the first nor the last character. */
  function Stem(name: string): string
  {
    var i := RFind(name, '.');
    if 0 < i < |name| - 1 then name[..i] else name
  }

  predicate EndsWith(s: string, suffix: string)
  {
    |suffix| <= |s| && s[|s| - |suffix|..] == suffix
  }

  /** The names the pattern "*.pdf" matches: `*` matches any prefix, the empty
      one included, and the match is case-sensitive. */
  predicate IsPdfName(name: string)
  {
    EndsWith(name, ".pdf")
  }

  /** Joining a proper component gives a path with that name inside `p`. */
  lemma JoinName(p: Path, c: string)
    requires c != "" && c != "."
    ensures Name(Join(p, c)) == c && Parent(Join(p, c)) == p
  {
    assert (p.parts + [c])[..|p.parts|] == p.parts;
  }

  /** Prefixing a PDF name keeps it a PDF name, and a PDF name is never one
      that pathlib drops from a join. */
  lemma PrefixedPdfName(prefix: string, name: string)
    requires IsPdfName(name)
    ensures IsPdfName(prefix + name)
    ensures prefix + name != "" && prefix + name != "."
    ensures name != "" && name != "."
  {
    var s := prefix + name;
    assert s[|s| - 4..] == name[|name| - 4..];
  }

  /** The stem of "X.pdf" is X, for any non-empty X. */
  lemma StemOfPdfName(x: string)
    requires |x| > 0
    ensures Stem(x + ".pdf") == x
  {
    var s := x + ".pdf";
    assert s[|x|] == '.' && s[|x| + 1] == 'p' && s[|x| + 2] == 'd' && s[|x| + 3] == 'f';
    assert RFind(s, '.') == |x|;
    assert s[..|x|] == x;
  }
}
