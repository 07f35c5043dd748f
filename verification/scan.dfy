/**
  Character classes of the missing-semicolon pattern and the one scanning
  primitive everything else is built from: the end of a maximal run of
  characters of a given class.
 */
module Scan {

  /** What Ruby's `.` matches outside multi-line mode: anything but a newline. */
  predicate IsLineChar(c: char) {
    c != '\n'
  }

  /** The class `[\t \n]`. */
  predicate IsBlank(c: char) {
    c == '\t' || c == ' ' || c == '\n'
  }

  /** The class `[ \t]`. */
  predicate IsIndent(c: char) {
    c == ' ' || c == '\t'
  }

  /** The class of the pattern's ` *`. */
  predicate IsSpace(c: char) {
    c == ' '
  }

  /** Every character of `t` is in the class `inClass`. */
  predicate All(t: string, inClass: char -> bool) {
    forall k | 0 <= k < |t| :: inClass(t[k])
  }

  /** The first position at or after `p` whose character is not in `inClass`
      (or `|s|`): the end of the maximal run of that class starting at `p`. */
  function RunEnd(s: string, p: nat, inClass: char -> bool): (n: nat)
    requires p <= |s|
    ensures p <= n <= |s|
    ensures forall k | p <= k < n :: inClass(s[k])
    ensures n < |s| ==> !inClass(s[n])
    decreases |s| - p
  {
    if p == |s| || !inClass(s[p]) then p else RunEnd(s, p + 1, inClass)
  }

  /** The end of the line holding position `p`: the first newline at or after
      `p`, or `|s|` on the last line. */
  function LineEnd(s: string, p: nat): (n: nat)
    requires p <= |s|
    ensures p <= n <= |s|
    ensures forall k | p <= k < n :: s[k] != '\n'
    ensures n < |s| ==> s[n] == '\n'
  {
    RunEnd(s, p, IsLineChar)
  }

  /** A run end is pinned down by its two defining facts. */
  lemma RunEndIsFirst(s: string, p: nat, n: nat, inClass: char -> bool)
    requires p <= n <= |s|
    requires forall k | p <= k < n :: inClass(s[k])
    requires n < |s| ==> !inClass(s[n])
    ensures RunEnd(s, p, inClass) == n
  {
  }

  /** Every position of a line has the same line end. */
  lemma LineEndIsFirst(s: string, p: nat, n: nat)
    requires p <= n <= |s|
    requires forall k | p <= k < n :: s[k] != '\n'
    requires n < |s| ==> s[n] == '\n'
    ensures LineEnd(s, p) == n
  {
    RunEndIsFirst(s, p, n, IsLineChar);
  }

  /** Adjacent slices glue back together. */
  lemma Glue(s: string, a: nat, b: nat)
    requires a <= b <= |s|
    ensures s[..a] + s[a..b] == s[..b]
  {
  }

  /** A text that starts with `u + t` holds `t` right after `u`. */
  lemma PrefixSlice(s: string, u: string, t: string)
    requires |u + t| <= |s| && s[..|u + t|] == u + t
    ensures s[..|u|] == u
    ensures s[|u|..|u| + |t|] == t
  {
    assert s[..|u|] == (u + t)[..|u|];
    assert s[|u|..|u| + |t|] == (u + t)[|u|..];
  }

  /** Cutting `s` at increasing positions and gluing the cuts back gives `s`. */
  lemma Reassemble(s: string, a: nat, b: nat, c: nat, d: nat, e: nat, f: nat)
    requires a <= b <= c <= d <= e <= f <= |s|
    ensures s == s[..a] + s[a..b] + s[b..c] + s[c..d] + s[d..e] + s[e..f] + s[f..]
  {
    Glue(s, a, b);
    Glue(s, b, c);
    Glue(s, c, d);
    Glue(s, d, e);
    Glue(s, e, f);
    assert s[..f] + s[f..] == s;
  }
}
