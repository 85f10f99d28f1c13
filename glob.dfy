/**
 * `sorted(glob.glob(os.path.join(directory, pattern)))` over one directory:
 * which names a pattern matches, and the ascending order `sorted` puts them in.
 */
module Glob {
  import opened Strings

  /**
   * `fnmatch.fnmatchcase(name, pattern)` with `*` as the only wildcard: a `*`
   * matches any run of characters, every other character matches itself.
   */
  predicate FnMatch(pattern: string, name: string)
    decreases |pattern| + |name|
  {
    if pattern == [] then name == []
    else if pattern[0] == '*' then FnMatch(pattern[1..], name) || (name != [] && FnMatch(pattern, name[1..]))
    else name != [] && name[0] == pattern[0] && FnMatch(pattern[1..], name[1..])
  }

  predicate Hidden(s: string)
  {
    s != [] && s[0] == '.'
  }

  /** `glob` also refuses a name starting with '.' unless the pattern starts with '.' too. */
  predicate GlobMatch(pattern: string, name: string)
  {
    (Hidden(name) ==> Hidden(pattern)) && FnMatch(pattern, name)
  }

  /** The names of a directory that `glob` returns for `pattern`. */
  function GlobSet<V>(files: map<string, V>, pattern: string): set<string>
  {
    set n | n in files && GlobMatch(pattern, n)
  }

  /** A pattern without `*` matches exactly itself. */
  lemma {:induction false} LiteralMatch(l: string, s: string)
    requires forall i :: 0 <= i < |l| ==> l[i] != '*'
    ensures FnMatch(l, s) <==> s == l
  {
    if l != [] && s != [] {
      LiteralMatch(l[1..], s[1..]);
      assert l == [l[0]] + l[1..] && s == [s[0]] + s[1..];
    }
  }

  lemma {:induction false} SelfMatch(s: string)
    ensures FnMatch(s, s)
  {
    if s != [] {
      SelfMatch(s[1..]);
      if s[0] == '*' {
        assert FnMatch(s, s[1..]);
      }
    }
  }

  /** A leading `*` absorbs any prefix. */
  lemma {:induction false} StarAbsorbs(p: string, u: string, s: string)
    requires FnMatch(p, s)
    ensures FnMatch("*" + p, u + s)
  {
    assert ("*" + p)[0] == '*' && ("*" + p)[1..] == p;
    if u == [] {
      assert u + s == s;
    } else {
      StarAbsorbs(p, u[1..], s);
      assert (u + s)[1..] == u[1..] + s;
    }
  }

  /** `.*` matches any extension. */
  lemma DotStarMatches(extension: string)
    ensures FnMatch(".*", "." + extension)
  {
    StarAbsorbs("", extension, "");
    assert "*" + "" == "*" && extension + "" == extension;
    assert ("." + extension)[1..] == extension;
  }

  /** Matching is compositional: matched pieces concatenate. */
  lemma {:induction false} MatchConcat(p1: string, s1: string, p2: string, s2: string)
    requires FnMatch(p1, s1) && FnMatch(p2, s2)
    ensures FnMatch(p1 + p2, s1 + s2)
    decreases |p1| + |s1|
  {
    if p1 == [] {
      assert p1 + p2 == p2 && s1 + s2 == s2;
    } else if p1[0] == '*' {
      assert (p1 + p2)[0] == '*' && (p1 + p2)[1..] == p1[1..] + p2;
      if FnMatch(p1[1..], s1) {
        MatchConcat(p1[1..], s1, p2, s2);
      } else {
        MatchConcat(p1, s1[1..], p2, s2);
        assert (s1 + s2)[1..] == s1[1..] + s2;
      }
    } else {
      assert (p1 + p2)[0] == p1[0] && (p1 + p2)[1..] == p1[1..] + p2;
      assert (s1 + s2)[0] == s1[0] && (s1 + s2)[1..] == s1[1..] + s2;
      MatchConcat(p1[1..], s1[1..], p2, s2);
    }
  }

  /** The converse of MatchConcat: a match of a concatenated pattern splits the name. */
  lemma {:induction false} MatchSplit(p1: string, p2: string, s: string)
    requires FnMatch(p1 + p2, s)
    ensures exists k :: 0 <= k <= |s| && FnMatch(p1, s[..k]) && FnMatch(p2, s[k..])
    decreases |p1| + |s|
  {
    if p1 == [] {
      assert p1 + p2 == p2 && s[..0] == [] && s[0..] == s;
      assert FnMatch(p1, s[..0]) && FnMatch(p2, s[0..]);
    } else if p1[0] == '*' {
      assert (p1 + p2)[0] == '*' && (p1 + p2)[1..] == p1[1..] + p2;
      if FnMatch(p1[1..] + p2, s) {
        MatchSplit(p1[1..], p2, s);
        var k :| 0 <= k <= |s| && FnMatch(p1[1..], s[..k]) && FnMatch(p2, s[k..]);
        assert FnMatch(p1, s[..k]);
      } else {
        MatchSplit(p1, p2, s[1..]);
        var k :| 0 <= k <= |s[1..]| && FnMatch(p1, s[1..][..k]) && FnMatch(p2, s[1..][k..]);
        assert s[..k + 1][1..] == s[1..][..k] && s[k + 1..] == s[1..][k..];
        assert FnMatch(p1, s[..k + 1]);
      }
    } else {
      assert (p1 + p2)[0] == p1[0] && (p1 + p2)[1..] == p1[1..] + p2;
      MatchSplit(p1[1..], p2, s[1..]);
      var k :| 0 <= k <= |s[1..]| && FnMatch(p1[1..], s[1..][..k]) && FnMatch(p2, s[1..][k..]);
      assert s[..k + 1][0] == s[0] && s[..k + 1][1..] == s[1..][..k] && s[k + 1..] == s[1..][k..];
      assert FnMatch(p1, s[..k + 1]);
    }
  }

  /** A pattern ending in a literal only matches names with that ending. */
  lemma LiteralSuffix(q: string, l: string, s: string)
    requires forall i :: 0 <= i < |l| ==> l[i] != '*'
    requires FnMatch(q + l, s)
    ensures EndsWith(s, l)
  {
    MatchSplit(q, l, s);
    var k :| 0 <= k <= |s| && FnMatch(q, s[..k]) && FnMatch(l, s[k..]);
    LiteralMatch(l, s[k..]);
  }

  /** Widening a final `.zip` to `.*` keeps every match. */
  lemma WidenZipSuffix(q: string, s: string)
    requires FnMatch(q + ".zip", s)
    ensures FnMatch(q + ".*", s)
  {
    MatchSplit(q, ".zip", s);
    var k :| 0 <= k <= |s| && FnMatch(q, s[..k]) && FnMatch(".zip", s[k..]);
    LiteralMatch(".zip", s[k..]);
    DotStarMatches("zip");
    assert "." + "zip" == ".zip";
    MatchConcat(q, s[..k], ".*", s[k..]);
    assert s[..k] + s[k..] == s;
  }

  /**
   * `pattern.replace('.zip', '.*')` matches every name `pattern` matches:
   * each `.zip` of the pattern becomes `.*`, which still covers it.
   */
  lemma {:induction false} ReplaceZipWidens(p: string, s: string)
    requires FnMatch(p, s)
    ensures FnMatch(ReplaceAll(p, ".zip", ".*"), s)
    decreases |p| + |s|
  {
    var r := ReplaceAll(p, ".zip", ".*");
    if |p| < 4 {
      assert r == p;
    } else if p[..4] == ".zip" {
      assert r == ".*" + ReplaceAll(p[4..], ".zip", ".*");
      assert p == ".zip" + p[4..];
      MatchSplit(".zip", p[4..], s);
      var k :| 0 <= k <= |s| && FnMatch(".zip", s[..k]) && FnMatch(p[4..], s[k..]);
      LiteralMatch(".zip", s[..k]);
      ReplaceZipWidens(p[4..], s[k..]);
      DotStarMatches("zip");
      assert "." + "zip" == ".zip";
      MatchConcat(".*", s[..k], ReplaceAll(p[4..], ".zip", ".*"), s[k..]);
      assert s[..k] + s[k..] == s;
    } else {
      var rest := ReplaceAll(p[1..], ".zip", ".*");
      assert r == [p[0]] + rest;
      assert r[0] == p[0] && r[1..] == rest;
      if p[0] == '*' {
        if FnMatch(p[1..], s) {
          ReplaceZipWidens(p[1..], s);
        } else {
          ReplaceZipWidens(p, s[1..]);
        }
      } else {
        ReplaceZipWidens(p[1..], s[1..]);
      }
    }
  }

  /** The replacement keeps the first character, so it does not change which names count as hidden. */
  lemma ReplaceZipKeepsHidden(p: string)
    ensures Hidden(ReplaceAll(p, ".zip", ".*")) <==> Hidden(p)
  {
    var r := ReplaceAll(p, ".zip", ".*");
    if |p| >= 4 {
      if p[..4] == ".zip" {
        assert p[0] == p[..4][0] == '.';
        assert r[0] == '.';
      } else {
        assert r[0] == p[0];
      }
    }
  }

  lemma ReplaceZipGlobWidens(p: string, s: string)
    requires GlobMatch(p, s)
    ensures GlobMatch(ReplaceAll(p, ".zip", ".*"), s)
  {
    ReplaceZipWidens(p, s);
    ReplaceZipKeepsHidden(p);
  }

  // ------------------------------------------------------------------
  // The order `sorted` produces
  // ------------------------------------------------------------------

  /** Ascending with no repeats: what `sorted` yields on the distinct names of a listing. */
  ghost predicate StrictlySorted(s: seq<string>)
  {
    forall i, j :: 0 <= i < j < |s| ==> Less(s[i], s[j])
  }

  predicate IsLeast(m: string, s: set<string>)
  {
    m in s && forall x :: x in s && x != m ==> Less(m, x)
  }

  lemma {:induction false} LeastExists(s: set<string>)
    requires s != {}
    ensures exists m :: IsLeast(m, s)
    decreases |s|
  {
    var x :| x in s;
    if s == {x} {
      assert IsLeast(x, s);
    } else {
      LeastExists(s - {x});
      var m :| IsLeast(m, s - {x});
      if Less(x, m) {
        forall y | y in s && y != x
          ensures Less(x, y)
        {
          if y != m {
            LessTransitive(x, m, y);
          }
        }
        assert IsLeast(x, s);
      } else {
        LessTotal(x, m);
        assert IsLeast(m, s);
      }
    }
  }

  lemma LeastUnique(m1: string, m2: string, s: set<string>)
    requires IsLeast(m1, s) && IsLeast(m2, s)
    ensures m1 == m2
  {
    if m1 != m2 {
      LessAsymmetric(m1, m2);
    }
  }

  lemma HeadIsLeast(a: seq<string>)
    requires StrictlySorted(a) && a != []
    ensures IsLeast(a[0], set x | x in a)
  {
    forall x | x in a && x != a[0]
      ensures Less(a[0], x)
    {
      var i :| 0 <= i < |a| && a[i] == x;
    }
  }

  lemma SameElementsEmpty(a: seq<string>, b: seq<string>)
    requires forall x :: x in a <==> x in b
    ensures a == [] <==> b == []
  {
    if a != [] {
      assert a[0] in b;
    }
    if b != [] {
      assert b[0] in a;
    }
  }

  /** Two strictly sorted sequences with the same elements are the same sequence. */
  lemma {:induction false} SortedUnique(a: seq<string>, b: seq<string>)
    requires StrictlySorted(a) && StrictlySorted(b)
    requires forall x :: x in a <==> x in b
    ensures a == b
    decreases |a|
  {
    SameElementsEmpty(a, b);
    if a != [] {
      assert (set x | x in a) == (set x | x in b);
      HeadIsLeast(a);
      HeadIsLeast(b);
      LeastUnique(a[0], b[0], set x | x in a);
      forall x
        ensures x in a[1..] <==> x in b[1..]
      {
        if x in a[1..] {
          var i :| 0 <= i < |a| - 1 && a[1..][i] == x;
          assert Less(a[0], a[i + 1]);
          LessIrreflexive(a[0]);
          assert a[i + 1] == x && x in a && x in b;
          var j :| 0 <= j < |b| && b[j] == x;
          assert j != 0 && b[1..][j - 1] == x;
        }
        if x in b[1..] {
          var i :| 0 <= i < |b| - 1 && b[1..][i] == x;
          assert Less(b[0], b[i + 1]);
          LessIrreflexive(b[0]);
          assert b[i + 1] == x && x in b && x in a;
          var j :| 0 <= j < |a| && a[j] == x;
          assert j != 0 && a[1..][j - 1] == x;
        }
      }
      SortedUnique(a[1..], b[1..]);
    }
  }

  /** Putting the least element in front of the sorted rest keeps the sequence sorted. */
  lemma ConsSorted(m: string, s: set<string>, rest: seq<string>)
    requires IsLeast(m, s) && StrictlySorted(rest)
    requires forall x :: x in rest <==> x in s - {m}
    ensures StrictlySorted([m] + rest)
    ensures forall x :: x in [m] + rest <==> x in s
  {
    var r := [m] + rest;
    forall i, j | 0 <= i < j < |r|
      ensures Less(r[i], r[j])
    {
      assert r[j] == rest[j - 1] && rest[j - 1] in rest;
      if i > 0 {
        assert r[i] == rest[i - 1];
      }
    }
  }

  /** The elements of a finite set of names in ascending order. */
  ghost function SortSet(s: set<string>): (r: seq<string>)
    ensures StrictlySorted(r)
    ensures forall x :: x in r <==> x in s
    decreases |s|
  {
    if s == {} then []
    else
      LeastExists(s);
      var m :| IsLeast(m, s);
      var rest := SortSet(s - {m});
      ConsSorted(m, s, rest);
      [m] + rest
  }

  lemma SortSetFirst(s: set<string>, m: string)
    requires IsLeast(m, s)
    ensures SortSet(s) == [m] + SortSet(s - {m})
  {
    var rest := SortSet(s - {m});
    ConsSorted(m, s, rest);
    SortedUnique(SortSet(s), [m] + rest);
  }

  /** One step of selection: the least remaining name moves to the end of the output. */
  lemma SelectLeast(names: seq<string>, remaining: set<string>, m: string, all: seq<string>)
    requires names + SortSet(remaining) == all
    requires IsLeast(m, remaining)
    ensures (names + [m]) + SortSet(remaining - {m}) == all
  {
    SortSetFirst(remaining, m);
    assert (names + [m]) + SortSet(remaining - {m}) == names + ([m] + SortSet(remaining - {m}));
  }

  /** `sorted(glob.glob(...))`: the matching names, ascending, each once. */
  method SortedGlob<V>(files: map<string, V>, pattern: string) returns (names: seq<string>)
    ensures StrictlySorted(names)
    ensures forall n :: n in names <==> n in files && GlobMatch(pattern, n)
    ensures names == SortSet(GlobSet(files, pattern))
  {
    var remaining := GlobSet(files, pattern);
    ghost var all := SortSet(remaining);
    names := [];
    while remaining != {}
      invariant names + SortSet(remaining) == all
      decreases |remaining|
    {
      LeastExists(remaining);
      var m :| IsLeast(m, remaining);
      SelectLeast(names, remaining, m, all);
      names := names + [m];
      remaining := remaining - {m};
    }
    assert SortSet(remaining) == [];
    assert names == all;
  }
}
