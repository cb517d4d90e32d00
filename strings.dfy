/** The few Python string operations the report script relies on:
    `str.endswith`, the `in` substring test, the slice `s[:-n]`,
    `str.replace(" ", "")`, `pathlib.Path(p).name` and the ordering
    comparisons `<` / `>` on `str`. */
module Strings {
  import opened Seqs

  predicate IsPrefix(p: string, s: string)
  {
    |p| <= |s| && s[..|p|] == p
  }

  /** `s.endswith(suffix)` */
  predicate EndsWith(s: string, suffix: string)
  {
    |suffix| <= |s| && s[|s| - |suffix|..] == suffix
  }

  /** `pat in s` for two strings: `pat` occurs as a contiguous substring. */
  predicate Contains(s: string, pat: string)
  {
    IsPrefix(pat, s) || (s != [] && Contains(s[1..], pat))
  }

  /** Python's slice `s[:-n]`. For `n == 0` it is `s[:0]`, the empty string,
      and it is empty as well once `n` reaches the length of `s`. */
  function DropLast(s: string, n: nat): (r: string)
    ensures IsPrefix(r, s)
    ensures 0 < n <= |s| ==> |r| == |s| - n
  {
    if n == 0 || n >= |s| then "" else s[..|s| - n]
  }

  /** Python's `<` on `str`: lexicographic order on code points, where a
      proper prefix comes first. (Dafny's own `<` on sequences means "proper
      prefix", which is a different relation.) */
  predicate LexLess(a: string, b: string)
  {
    if b == [] then false
    else if a == [] then true
    else if a[0] != b[0] then a[0] < b[0]
    else LexLess(a[1..], b[1..])
  }

  lemma {:induction false} LexIrreflexive(a: string)
    ensures !LexLess(a, a)
  {
    if a != [] {
      LexIrreflexive(a[1..]);
    }
  }

  lemma {:induction false} LexTransitive(a: string, b: string, c: string)
    requires LexLess(a, b) && LexLess(b, c)
    ensures LexLess(a, c)
  {
    if a != [] && a[0] == b[0] && b[0] == c[0] {
      LexTransitive(a[1..], b[1..], c[1..]);
    }
  }

  /** Any two different strings are ordered one way or the other. */
  lemma {:induction false} LexTotal(a: string, b: string)
    requires a != b
    ensures LexLess(a, b) || LexLess(b, a)
  {
    if a != [] && b != [] && a[0] == b[0] {
      assert a == [a[0]] + a[1..] && b == [b[0]] + b[1..];
      LexTotal(a[1..], b[1..]);
    }
  }

  lemma LexAsymmetric(a: string, b: string)
    requires LexLess(a, b)
    ensures !LexLess(b, a)
  {
    if LexLess(b, a) {
      LexTransitive(a, b, a);
      LexIrreflexive(a);
    }
  }

  /** "Not greater" is transitive as well; the sorted report relies on it. */
  lemma LexNotLessTransitive(a: string, b: string, c: string)
    requires !LexLess(b, a) && !LexLess(c, b)
    ensures !LexLess(c, a)
  {
    if LexLess(c, a) {
      if a == b {
      } else if b == c {
      } else {
        LexTotal(a, b);
        LexTotal(b, c);
        // now a < b and b < c, so a < c, contradicting c < a
        LexTransitive(a, b, c);
        LexAsymmetric(a, c);
      }
    }
  }

  /** A common prefix does not influence the comparison. */
  lemma {:induction false} LexCommonPrefix(p: string, a: string, b: string)
    ensures LexLess(p + a, p + b) == LexLess(a, b)
  {
    if p != [] {
      assert (p + a)[0] == p[0] && (p + b)[0] == p[0];
      assert (p + a)[1..] == p[1..] + a && (p + b)[1..] == p[1..] + b;
      LexCommonPrefix(p[1..], a, b);
    } else {
      assert p + a == a && p + b == b;
    }
  }

  /** `s.replace(" ", "")` */
  function RemoveSpaces(s: string): (r: string)
    ensures ' ' !in r
    ensures IsSubsequence(r, s)
    ensures forall c :: c != ' ' ==> multiset(r)[c] == multiset(s)[c]
  {
    FilterIsSubsequence(s, IsNotSpace);
    FilterCountAll(s);
    FilterMembers(s, IsNotSpace);
    Filter(s, IsNotSpace)
  }

  predicate IsNotSpace(c: char) { c != ' ' }

  lemma FilterCountAll(s: string)
    ensures forall c :: c != ' ' ==> multiset(Filter(s, IsNotSpace))[c] == multiset(s)[c]
  {
    forall c | c != ' '
      ensures multiset(Filter(s, IsNotSpace))[c] == multiset(s)[c]
    {
      FilterCount(s, IsNotSpace, c);
    }
  }

  /** `pathlib.Path(p).name`: the text after the last `/`. */
  function BaseName(p: string): (r: string)
    ensures '/' !in r
    ensures EndsWith(p, r)
    ensures r == p || (|r| < |p| && p[|p| - |r| - 1] == '/')
  {
    if p == [] then []
    else if p[|p| - 1] == '/' then []
    else
      var init := p[..|p| - 1];
      var r := BaseName(init) + [p[|p| - 1]];
      assert init + [p[|p| - 1]] == p;
      assert p[|p| - |r|..] == init[|init| - |BaseName(init)|..] + [p[|p| - 1]];
      r
  }
}
