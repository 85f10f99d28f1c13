/**
 * The few operations on Python `str` values that the splitter and the
 * merger rely on: ordering (`<`, used by `sorted`), `endswith`, `rfind`,
 * `replace`, `str(int)` and truthiness.
 */
module Strings {
  import opened Wrappers

  /** Python truthiness of an optional string: given, and not the empty string. */
  predicate Truthy(s: Option<string>)
  {
    s.Some? && s.value != ""
  }

  /**
   * Python's `a < b` on two `str` values: code points compared from the left,
   * and a proper prefix sorts before the longer string.
   */
  predicate Less(a: string, b: string)
  {
    if a == [] then b != []
    else b != [] && (a[0] < b[0] || (a[0] == b[0] && Less(a[1..], b[1..])))
  }

  lemma {:induction false} LessIrreflexive(a: string)
    ensures !Less(a, a)
  {
    if a != [] {
      LessIrreflexive(a[1..]);
    }
  }

  lemma {:induction false} LessTransitive(a: string, b: string, c: string)
    requires Less(a, b) && Less(b, c)
    ensures Less(a, c)
  {
    if a != [] && a[0] == b[0] && b[0] == c[0] {
      LessTransitive(a[1..], b[1..], c[1..]);
    }
  }

  lemma LessAsymmetric(a: string, b: string)
    requires Less(a, b)
    ensures !Less(b, a)
  {
    if Less(b, a) {
      LessTransitive(a, b, a);
      LessIrreflexive(a);
    }
  }

  lemma {:induction false} LessTotal(a: string, b: string)
    requires a != b
    ensures Less(a, b) || Less(b, a)
  {
    if a != [] && b != [] && a[0] == b[0] {
      assert a == [a[0]] + a[1..] && b == [b[0]] + b[1..];
      LessTotal(a[1..], b[1..]);
    }
  }

  /** A common prefix does not change how two strings compare. */
  lemma {:induction false} LessCommonPrefix(p: string, a: string, b: string)
    ensures Less(p + a, p + b) <==> Less(a, b)
  {
    if p == [] {
      assert p + a == a && p + b == b;
    } else {
      assert (p + a)[0] == p[0] == (p + b)[0];
      assert (p + a)[1..] == p[1..] + a;
      assert (p + b)[1..] == p[1..] + b;
      LessCommonPrefix(p[1..], a, b);
    }
  }

  /** Python's `s.endswith(suffix)`. */
  predicate EndsWith(s: string, suffix: string)
  {
    |suffix| <= |s| && s[|s| - |suffix|..] == suffix
  }

  lemma EndsWithTransitive(s: string, t: string, u: string)
    requires EndsWith(s, t) && EndsWith(t, u)
    ensures EndsWith(s, u)
  {
    assert s[|s| - |u|..] == s[|s| - |t|..][|t| - |u|..];
  }

  /** Python's `s.rfind(c)` for a single character: the last index holding `c`, or -1. */
  function LastIndexOf(s: string, c: char): (r: int)
    ensures -1 <= r < |s|
    ensures r >= 0 ==> s[r] == c
    ensures forall j :: r < j < |s| ==> s[j] != c
  {
    if s == [] then -1
    else if s[|s| - 1] == c then |s| - 1
    else LastIndexOf(s[..|s| - 1], c)
  }

  /**
   * Python's `s.replace(target, replacement)`: every occurrence of `target`, scanning from
   * the left and never overlapping, is replaced by `replacement`.
   */
  function ReplaceAll(s: string, target: string, replacement: string): string
    requires target != []
    decreases |s|
  {
    if |s| < |target| then s
    else if s[..|target|] == target then replacement + ReplaceAll(s[|target|..], target, replacement)
    else [s[0]] + ReplaceAll(s[1..], target, replacement)
  }

  /** `target` occurs in `s` at index `i`. */
  predicate OccursAt(s: string, target: string, i: int)
  {
    0 <= i && i + |target| <= |s| && s[i..i + |target|] == target
  }

  lemma OccursShift(s: string, target: string, i: nat)
    requires s != []
    ensures OccursAt(s[1..], target, i) <==> OccursAt(s, target, i + 1)
  {
    if i + 1 + |target| <= |s| {
      assert s[1..][i..i + |target|] == s[i + 1..i + 1 + |target|];
    }
  }

  /** A string in which `target` does not occur is left as it is. */
  lemma {:induction false} ReplaceAllAbsent(s: string, target: string, replacement: string)
    requires target != []
    requires forall i :: 0 <= i < |s| ==> !OccursAt(s, target, i)
    ensures ReplaceAll(s, target, replacement) == s
    decreases |s|
  {
    if |s| >= |target| {
      assert !OccursAt(s, target, 0);
      assert s[0..|target|] == s[..|target|];
      forall i | 0 <= i < |s| - 1
        ensures !OccursAt(s[1..], target, i)
      {
        OccursShift(s, target, i);
      }
      ReplaceAllAbsent(s[1..], target, replacement);
      assert s == [s[0]] + s[1..];
    }
  }

  /**
   * An occurrence of `target` after a prefix in which no occurrence starts is
   * replaced, and the scan goes on after it.
   */
  lemma {:induction false} ReplaceAllOnce(prefix: string, target: string, replacement: string, rest: string)
    requires target != []
    requires forall i :: 0 <= i < |prefix| ==> !OccursAt(prefix + target + rest, target, i)
    ensures ReplaceAll(prefix + target + rest, target, replacement)
         == prefix + replacement + ReplaceAll(rest, target, replacement)
    decreases |prefix|
  {
    var s := prefix + target + rest;
    if prefix == [] {
      assert s == target + rest;
      assert s[..|target|] == target && s[|target|..] == rest;
    } else {
      assert !OccursAt(s, target, 0);
      assert s[0..|target|] == s[..|target|];
      var p := prefix[1..];
      assert s[1..] == p + target + rest;
      forall i | 0 <= i < |p|
        ensures !OccursAt(p + target + rest, target, i)
      {
        OccursShift(s, target, i);
      }
      ReplaceAllOnce(p, target, replacement, rest);
      assert prefix + replacement + ReplaceAll(rest, target, replacement)
          == [prefix[0]] + (p + replacement + ReplaceAll(rest, target, replacement));
    }
  }

  /** The character of one decimal digit. */
  function DigitChar(d: nat): (c: char)
    requires d < 10
    ensures '0' <= c <= '9'
  {
    (d + 48) as char
  }

  /** Python's `str(n)` (and `f'{n}'`) for a non-negative integer: decimal, no padding. */
  function DecimalString(n: nat): (s: string)
    ensures 1 <= |s|
    ensures |s| == 1 <==> n < 10
    ensures forall i :: 0 <= i < |s| ==> '0' <= s[i] <= '9'
  {
    if n < 10 then [DigitChar(n)] else DecimalString(n / 10) + [DigitChar(n % 10)]
  }

  /** Different numbers print differently. */
  lemma {:induction false} DecimalStringInjective(m: nat, n: nat)
    requires DecimalString(m) == DecimalString(n)
    ensures m == n
  {
    if m >= 10 && n >= 10 {
      var sm, sn := DecimalString(m), DecimalString(n);
      assert sm[..|sm| - 1] == DecimalString(m / 10);
      assert sn[..|sn| - 1] == DecimalString(n / 10);
      assert DigitChar(m % 10) == sm[|sm| - 1] == sn[|sn| - 1] == DigitChar(n % 10);
      DecimalStringInjective(m / 10, n / 10);
    } else if m < 10 && n < 10 {
      assert DigitChar(m) == DecimalString(m)[0];
    }
  }
}
