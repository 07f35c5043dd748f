/**
  The missing-semicolon rule's regular expression

      [eE]rror: ';' expected.*[\t \n]* *(.*)\n[ \t]+\^

  written as a decomposition of the diagnostic text into the pieces each part
  of the expression consumes, together with the match Ruby's backtracking
  engine reports when several decompositions exist.
 */
module MissingSemicolonPattern {
  import opened Scan

  /** The reason phrase that follows the error marker. */
  const Reason: string := " ';' expected"

  /** The error marker `[eE]rror:`: exactly two spellings. */
  predicate IsErrorMarker(m: string) {
    m == "error:" || m == "Error:"
  }

  /**
    One way of reading a text against the pattern:

      prefix · marker · Reason · rest · blanks · spaces · near · "\n" · indent · "^" · suffix

    where `rest` is what `.*` consumes, `blanks` what `[\t \n]*` consumes,
    `spaces` what ` *` consumes, `near` the captured group `(.*)` and
    `indent` what `[ \t]+` consumes. `prefix` and `suffix` are the unmatched
    text around the match.
   */
  datatype Split = Split(
    prefix: string,
    marker: string,
    rest: string,
    blanks: string,
    spaces: string,
    near: string,
    indent: string,
    suffix: string)
  {
    function Compose(): string {
      prefix + marker + Reason + rest + blanks + spaces + near + "\n" + indent + "^" + suffix
    }

    /** Every piece is drawn from the class its part of the pattern accepts. */
    predicate WellFormed() {
      && IsErrorMarker(marker)
      && All(rest, IsLineChar)
      && All(blanks, IsBlank)
      && All(spaces, IsSpace)
      && All(near, IsLineChar)
      && |indent| > 0
      && All(indent, IsIndent)
    }

    /** Where the match begins. */
    function Start(): nat {
      |prefix|
    }

    /** Where the captured group begins. */
    function NearStart(): nat {
      |prefix| + |marker| + |Reason| + |rest| + |blanks| + |spaces|
    }
  }

  /** `d` is a reading of `s` against the pattern. */
  ghost predicate IsSplitOf(s: string, d: Split) {
    d.WellFormed() && d.Compose() == s
  }

  /** The pattern matches somewhere in `s`. */
  ghost predicate Matches(s: string) {
    exists d :: IsSplitOf(s, d)
  }

  /**
    The reading Ruby's `Regexp#match` reports: the leftmost start, and at that
    start the latest beginning of the captured group. The greedy `.*`,
    `[\t \n]*` and ` *` are tried longest first, so the first group start
    that lets the caret line follow is the latest one.
   */
  ghost predicate IsRubyMatch(s: string, d: Split) {
    && IsSplitOf(s, d)
    && forall d' | IsSplitOf(s, d') ::
         d.Start() < d'.Start() || (d.Start() == d'.Start() && d'.NearStart() <= d.NearStart())
  }

  /** `near` is the group Ruby captures when it matches `s`. */
  ghost predicate IsRubyNear(s: string, near: string) {
    exists d :: IsRubyMatch(s, d) && d.near == near
  }
}
