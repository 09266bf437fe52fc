/** The helper that derives the default destination name from a source
    path: the base name cut at its first dot. */
module FileStem {
  import opened Strings

  /** POSIX base name: the text after the last `/`, or all of `p`. */
  function BaseName(p: string): (b: string)
    ensures '/' !in b
    ensures EndsWith(p, b)
    ensures '/' in p ==> |b| < |p| && p[|p| - |b| - 1] == '/'
    ensures '/' !in p ==> b == p
  {
    p[RFind(p, '/') + 1..]
  }

  /** The stem as the code computes it: the base name sliced up to the
      index of its first `.`. With no `.` that index is -1, which a Python
      slice reads as "all but the last character". */
  function FileStem(p: string): (r: string)
    ensures |r| <= |BaseName(p)| && r == BaseName(p)[..|r|] && '.' !in r
    ensures '.' in BaseName(p) ==> BaseName(p)[|r|] == '.'
    ensures '.' !in BaseName(p) && |BaseName(p)| > 0 ==> |r| == |BaseName(p)| - 1
    ensures BaseName(p) == "" ==> r == ""
  {
    var bn := BaseName(p);
    SliceTo(bn, Find(bn, '.'))
  }

  /** The stem as evidently intended: the base name up to its first `.`,
      or the whole base name when it has none. */
  function FileStemIntended(p: string): (r: string)
    ensures |r| <= |BaseName(p)| && r == BaseName(p)[..|r|] && '.' !in r
    ensures |r| < |BaseName(p)| ==> BaseName(p)[|r|] == '.'
  {
    var bn := BaseName(p);
    var k := Find(bn, '.');
    if k == -1 then bn else bn[..k]
  }

  /** For a base name `stem.ext` with a dot-free stem, both definitions
      give the stem: `some.tar.xz` becomes `some`. */
  lemma StemBeforeFirstDot(p: string, stem: string, ext: string)
    requires BaseName(p) == stem + "." + ext && '.' !in stem
    ensures FileStem(p) == stem
    ensures FileStemIntended(p) == stem
  {
    SplitAtFirst(stem, '.', ext);
  }

  /** The intended stem of a dot-free base name is the base name itself;
      the two definitions agree whenever the base name has a dot. */
  lemma IntendedStem(p: string)
    ensures '.' !in BaseName(p) ==> FileStemIntended(p) == BaseName(p)
    ensures '.' in BaseName(p) ==> FileStemIntended(p) == FileStem(p)
  {
  }

  /** The code's stem of a dot-free base name loses its last character. */
  lemma StemDropsLastChar(p: string)
    requires '.' !in BaseName(p) && |BaseName(p)| > 0
    ensures FileStem(p) + [BaseName(p)[|BaseName(p)| - 1]] == BaseName(p)
    ensures FileStem(p) != FileStemIntended(p)
  {
    var bn := BaseName(p);
    assert bn == bn[..|bn| - 1] + [bn[|bn| - 1]];
  }

  /** A concrete instance: the path `out/archive` gets the stem `archiv`. */
  lemma StemOfDotlessPath()
    ensures FileStem("out/archive") == "archiv"
    ensures FileStemIntended("out/archive") == "archive"
  {
    SplitAtLast("out", '/', "archive");
    assert "out" + "/" + "archive" == "out/archive";
    StemDropsLastChar("out/archive");
  }
}
