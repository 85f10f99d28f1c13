/**
 * POSIX path strings as `os.path` and `pathlib` treat them. Only what the
 * splitter uses: joining a directory and a file name, the final component
 * of a path, and the stem of a file name.
 */
module Paths {
  import opened Strings

  /** `os.path.join(directory, name)` on POSIX; an absolute `name` discards the directory. */
  function Join(directory: string, name: string): (p: string)
    ensures EndsWith(p, name)
  {
    if name != [] && name[0] == '/' then name
    else if directory == [] || directory[|directory| - 1] == '/' then directory + name
    else directory + "/" + name
  }

  /** In one directory every joined path shares the same prefix, so paths sort as names do. */
  lemma JoinKeepsOrder(directory: string, a: string, b: string)
    requires a != [] && a[0] != '/' && b != [] && b[0] != '/'
    ensures Less(Join(directory, a), Join(directory, b)) <==> Less(a, b)
  {
    if directory == [] || directory[|directory| - 1] == '/' {
      LessCommonPrefix(directory, a, b);
    } else {
      assert directory + "/" + a == (directory + "/") + a;
      LessCommonPrefix(directory + "/", a, b);
    }
  }

  /** `os.path.basename(p)`: everything after the last '/'. */
  function BaseName(p: string): string
  {
    if p == [] || p[|p| - 1] == '/' then [] else BaseName(p[..|p| - 1]) + [p[|p| - 1]]
  }

  /** The base name is the longest suffix of `p` that holds no '/'. */
  lemma {:induction false} BaseNameShape(p: string)
    ensures EndsWith(p, BaseName(p))
    ensures forall i :: 0 <= i < |BaseName(p)| ==> BaseName(p)[i] != '/'
    ensures |BaseName(p)| < |p| ==> p[|p| - |BaseName(p)| - 1] == '/'
  {
    if p != [] && p[|p| - 1] != '/' {
      var q := p[..|p| - 1];
      BaseNameShape(q);
      var r := BaseName(q);
      assert BaseName(p) == r + [p[|p| - 1]];
      assert p[|p| - |r| - 1..] == q[|q| - |r|..] + [p[|p| - 1]];
    }
  }

  /** A slash-free ending of a path survives into its base name. */
  lemma {:induction false} BaseNameKeepsSuffix(p: string, suffix: string)
    requires EndsWith(p, suffix)
    requires forall i :: 0 <= i < |suffix| ==> suffix[i] != '/'
    ensures EndsWith(BaseName(p), suffix)
  {
    if suffix != [] {
      var q, u := p[..|p| - 1], suffix[..|suffix| - 1];
      assert p[|p| - 1] == suffix[|suffix| - 1];
      assert q[|q| - |u|..] == u;
      BaseNameKeepsSuffix(q, u);
      var r := BaseName(q);
      assert BaseName(p) == r + [p[|p| - 1]];
      assert (r + [p[|p| - 1]])[|r| + 1 - |suffix|..] == r[|r| - |u|..] + [p[|p| - 1]];
    }
  }

  function StripTrailingSlashes(p: string): string
  {
    if p != [] && p[|p| - 1] == '/' then StripTrailingSlashes(p[..|p| - 1]) else p
  }

  /** `pathlib.PurePath(p).name`: the final component, trailing slashes ignored. */
  function PathName(p: string): string
  {
    BaseName(StripTrailingSlashes(p))
  }

  /**
   * `pathlib.PurePath(p).stem`: the final component without its last suffix
   * (the rule of Python 3.13 and earlier).
   */
  function Stem(p: string): string
  {
    StemOf(PathName(p))
  }

  /**
   * The stem of a file name. A suffix starts at the last '.', which must be
   * neither the first nor the last character of the name; without one the
   * stem is the whole name.
   */
  function StemOf(name: string): (r: string)
    ensures || (r == name && ((forall j :: 0 < j < |name| ==> name[j] != '.') || name[|name| - 1] == '.'))
            || (&& 0 < |r| < |name| - 1
                && name[..|r|] == r
                && name[|r|] == '.'
                && forall j :: |r| < j < |name| ==> name[j] != '.')
  {
    var i := LastIndexOf(name, '.');
    if 0 < i < |name| - 1 then name[..i] else name
  }
}
