/**
  `JavaExplainer#explain_missing_semicolon`: a hand-written matcher for the
  one regular expression of the rule, proved to report exactly the match the
  Ruby engine reports (see `MissingSemicolonPattern`).
 */
module JavaExplainer {
  import opened Wrappers
  import opened Scan
  import opened MissingSemicolonPattern

  /** Length of `error:` followed by the reason phrase. */
  const HeadLength: nat := 19

  /** `[eE]rror: ';' expected` occurs at `i`. */
  predicate HeadAt(s: string, i: nat) {
    && i + HeadLength <= |s|
    && IsErrorMarker(s[i..i + 6])
    && s[i + 6..i + HeadLength] == Reason
  }

  /** `.*[\t \n]* *` can consume exactly `s[e..p]`: the rest of the line of
      `e`, possibly followed by blank characters. */
  predicate GapSpans(s: string, e: nat, p: nat)
    requires e <= |s|
  {
    && e <= p <= |s|
    && var l := LineEnd(s, e);
       p <= l || forall k | l <= k < p :: IsBlank(s[k])
  }

  /** `(.*)\n[ \t]+\^` matches at `p`: the line from `p` is followed by a line
      of one or more spaces or tabs and a caret. */
  predicate CaretLineAfter(s: string, p: nat)
    requires p <= |s|
  {
    var n := LineEnd(s, p);
    && n < |s|
    && var j := RunEnd(s, n + 1, IsIndent);
       n + 1 < j < |s| && s[j] == '^'
  }

  /** The whole pattern matches from `i` with the captured group starting at `p`. */
  predicate MatchAt(s: string, i: nat, p: nat) {
    HeadAt(s, i) && GapSpans(s, i + HeadLength, p) && CaretLineAfter(s, p)
  }

  /** A match found by the scan: where it starts and where its group starts. */
  datatype Hit = Hit(start: nat, nearStart: nat)

  /** The latest group start in `[lo, p]` that a caret line follows. */
  function LatestCaretStart(s: string, lo: nat, p: nat): (r: Option<nat>)
    requires lo <= p <= |s|
    ensures r.Some? ==>
      && lo <= r.value <= p
      && CaretLineAfter(s, r.value)
      && forall q: nat | r.value < q <= p :: !CaretLineAfter(s, q)
    ensures r.None? ==> forall q: nat | lo <= q <= p :: !CaretLineAfter(s, q)
    decreases p - lo
  {
    if CaretLineAfter(s, p) then Some(p)
    else if p == lo then None
    else LatestCaretStart(s, lo, p - 1)
  }

  /** Every start on the line of `e` sees the same caret test as that line's end. */
  lemma SameLineSameCaret(s: string, e: nat, q: nat)
    requires e <= |s|
    requires e <= q <= LineEnd(s, e)
    ensures LineEnd(s, q) == LineEnd(s, e)
    ensures CaretLineAfter(s, q) == CaretLineAfter(s, LineEnd(s, e))
  {
    var l := LineEnd(s, e);
    LineEndIsFirst(s, q, l);
    LineEndIsFirst(s, l, l);
  }

  /** The latest group start a gap from `e` can reach, backtracking as Ruby does. */
  function NearStartAfter(s: string, e: nat): (r: Option<nat>)
    requires e <= |s|
    ensures r.Some? ==>
      && GapSpans(s, e, r.value)
      && CaretLineAfter(s, r.value)
      && forall q: nat | GapSpans(s, e, q) && CaretLineAfter(s, q) :: q <= r.value
    ensures r.None? ==> forall q: nat | GapSpans(s, e, q) :: !CaretLineAfter(s, q)
  {
    var l := LineEnd(s, e);
    var w := RunEnd(s, l, IsBlank);
    var r := LatestCaretStart(s, l, w);
    forall q: nat | GapSpans(s, e, q) && CaretLineAfter(s, q)
      ensures r.Some? && q <= r.value
    {
      if q <= l {
        SameLineSameCaret(s, e, q);
      }
    }
    r
  }

  /** No match starts anywhere in `[lo, hi)`. */
  ghost predicate NoMatchBetween(s: string, lo: nat, hi: nat) {
    forall j: nat, q: nat | lo <= j < hi :: !MatchAt(s, j, q)
  }

  /** A match starts at `i` with its group at `p`, and no later group start
      would also match from `i`. */
  ghost predicate LatestMatchAt(s: string, i: nat, p: nat) {
    MatchAt(s, i, p) && forall q: nat | MatchAt(s, i, q) :: q <= p
  }

  /** No match starts at `i` once the search from its head has failed. */
  lemma NoMatchAt(s: string, i: nat)
    requires i <= |s|
    requires HeadAt(s, i) ==> NearStartAfter(s, i + HeadLength).None?
    ensures NoMatchBetween(s, i, i + 1)
  {
  }

  /** The leftmost match at or after `i`, with its latest group start. */
  function FirstMatchFrom(s: string, i: nat): (r: Option<Hit>)
    requires i <= |s|
    ensures r.Some? ==>
      && i <= r.value.start
      && NoMatchBetween(s, i, r.value.start)
      && LatestMatchAt(s, r.value.start, r.value.nearStart)
    ensures r.None? ==> NoMatchBetween(s, i, |s| + 1)
    decreases |s| - i
  {
    var here := if HeadAt(s, i) then NearStartAfter(s, i + HeadLength) else None;
    if here.Some? then
      Some(Hit(i, here.value))
    else
      NoMatchAt(s, i);
      if i == |s| then None else FirstMatchFrom(s, i + 1)
  }

  /** The pieces `SplitAt` cuts from a match glue back to the whole text. */
  lemma SplitPiecesCompose(s: string, i: nat, e: nat, x: nat, p: nat, n: nat, j: nat)
    requires i + HeadLength == e <= x <= p <= n < j < |s|
    requires s[i + 6..e] == Reason && s[n] == '\n' && s[j] == '^'
    ensures s == s[..i] + s[i..i + 6] + Reason + s[e..x] + s[x..p] + "" + s[p..n]
                 + "\n" + s[n + 1..j] + "^" + s[j + 1..]
  {
    Glue(s, i, i + 6);
    Glue(s, i + 6, e);
    Glue(s, e, x);
    Glue(s, x, p);
    assert s[..x] + s[x..p] + "" == s[..p];
    Glue(s, p, n);
    Glue(s, n, n + 1);
    Glue(s, n + 1, j);
    Glue(s, j, j + 1);
    assert s[..j + 1] + s[j + 1..] == s;
  }

  /** `All` over a slice, from the fact about the positions of the slice. */
  lemma AllOfSlice(s: string, a: nat, b: nat, inClass: char -> bool)
    requires a <= b <= |s|
    requires forall k | a <= k < b :: inClass(s[k])
    ensures All(s[a..b], inClass)
  {
    forall k | 0 <= k < b - a
      ensures inClass(s[a..b][k])
    {
      assert s[a..b][k] == s[a + k];
    }
  }

  /** The pieces cut out of a match are drawn from the right classes. */
  lemma CutIsWellFormed(s: string, i: nat, p: nat, x: nat, n: nat, j: nat)
    requires MatchAt(s, i, p)
    requires x == if p <= LineEnd(s, i + HeadLength) then p else LineEnd(s, i + HeadLength)
    requires n == LineEnd(s, p) && j == RunEnd(s, n + 1, IsIndent)
    ensures Split(s[..i], s[i..i + 6], s[i + HeadLength..x], s[x..p], "", s[p..n], s[n + 1..j], s[j + 1..]).WellFormed()
  {
    var e := i + HeadLength;
    AllOfSlice(s, e, x, IsLineChar);
    AllOfSlice(s, x, p, IsBlank);
    AllOfSlice(s, p, n, IsLineChar);
    AllOfSlice(s, n + 1, j, IsIndent);
  }

  /** The decomposition behind a match found by index: the witness that the
      matcher only reports readings of the pattern. */
  function SplitAt(s: string, i: nat, p: nat): (d: Split)
    requires MatchAt(s, i, p)
    ensures IsSplitOf(s, d)
    ensures d.Start() == i && d.NearStart() == p
  {
    var e := i + HeadLength;
    var l := LineEnd(s, e);
    var x := if p <= l then p else l;
    var n := LineEnd(s, p);
    var j := RunEnd(s, n + 1, IsIndent);
    SplitPiecesCompose(s, i, e, x, p, n, j);
    CutIsWellFormed(s, i, p, x, n, j);
    Split(s[..i], s[i..i + 6], s[e..x], s[x..p], "", s[p..n], s[n + 1..j], s[j + 1..])
  }

  /** Where the marker, the reason and `rest` of a reading sit in the text. */
  lemma HeadPositions(s: string, d: Split)
    requires s == d.Compose()
    ensures var i := d.Start();
            var e := i + |d.marker| + |Reason|;
            && d.NearStart() <= |s|
            && s[i..i + |d.marker|] == d.marker
            && s[i + |d.marker|..e] == Reason
            && s[e..e + |d.rest|] == d.rest
  {
    var p1 := d.prefix + d.marker;
    var p2 := p1 + Reason;
    var p3 := p2 + d.rest;
    var p6 := p3 + d.blanks + d.spaces + d.near;
    assert s == p6 + "\n" + d.indent + "^" + d.suffix;
    PrefixSlice(s, p6 + "\n" + d.indent + "^", d.suffix);
    PrefixSlice(s, p6 + "\n" + d.indent, "^");
    PrefixSlice(s, p6 + "\n", d.indent);
    PrefixSlice(s, p6, "\n");
    PrefixSlice(s, p3 + d.blanks + d.spaces, d.near);
    PrefixSlice(s, p3 + d.blanks, d.spaces);
    PrefixSlice(s, p3, d.blanks);
    PrefixSlice(s, p2, d.rest);
    PrefixSlice(s, p1, Reason);
    PrefixSlice(s, d.prefix, d.marker);
  }

  /** Where `blanks` and `spaces` of a reading sit in the text. */
  lemma GapPositions(s: string, d: Split)
    requires s == d.Compose()
    ensures var p := d.NearStart();
            && p <= |s|
            && s[p - |d.spaces|..p] == d.spaces
            && s[p - |d.spaces| - |d.blanks|..p - |d.spaces|] == d.blanks
  {
    var p3 := d.prefix + d.marker + Reason + d.rest;
    var p4 := p3 + d.blanks;
    var p5 := p4 + d.spaces;
    assert s == p5 + d.near + "\n" + d.indent + "^" + d.suffix;
    PrefixSlice(s, p5 + d.near + "\n" + d.indent + "^", d.suffix);
    PrefixSlice(s, p5 + d.near + "\n" + d.indent, "^");
    PrefixSlice(s, p5 + d.near + "\n", d.indent);
    PrefixSlice(s, p5 + d.near, "\n");
    PrefixSlice(s, p5, d.near);
    PrefixSlice(s, p4, d.spaces);
    PrefixSlice(s, p3, d.blanks);
  }

  /** Where the captured group and the caret line of a reading sit in the text. */
  lemma TailPositions(s: string, d: Split)
    requires s == d.Compose()
    ensures var p := d.NearStart();
            var n := p + |d.near|;
            var j := n + 1 + |d.indent|;
            && j < |s|
            && s[p..n] == d.near
            && s[n] == '\n'
            && s[n + 1..j] == d.indent
            && s[j] == '^'
  {
    var p5 := d.prefix + d.marker + Reason + d.rest + d.blanks + d.spaces;
    var p6 := p5 + d.near;
    var p7 := p6 + "\n";
    var p8 := p7 + d.indent;
    var p9 := p8 + "^";
    assert s == p9 + d.suffix;
    PrefixSlice(s, p9, d.suffix);
    PrefixSlice(s, p8, "^");
    PrefixSlice(s, p7, d.indent);
    PrefixSlice(s, p6, "\n");
    PrefixSlice(s, p5, d.near);
    assert s[|p6|..|p6| + 1][0] == s[|p6|];
    assert s[|p8|..|p8| + 1][0] == s[|p8|];
  }

  /** A reading starts with a head. */
  lemma SplitHead(s: string, d: Split)
    requires IsSplitOf(s, d)
    ensures HeadAt(s, d.Start())
  {
    HeadPositions(s, d);
  }

  /** A reading's group runs to the end of its line, and the caret line follows. */
  lemma SplitCaret(s: string, d: Split)
    requires IsSplitOf(s, d)
    ensures CaretLineAfter(s, d.NearStart())
    ensures d.near == s[d.NearStart()..LineEnd(s, d.NearStart())]
  {
    TailPositions(s, d);
    var p := d.NearStart();
    var n := p + |d.near|;
    var j := n + 1 + |d.indent|;
    forall k | p <= k < n
      ensures s[k] != '\n'
    {
      assert s[k] == d.near[k - p];
    }
    LineEndIsFirst(s, p, n);
    forall k | n + 1 <= k < j
      ensures IsIndent(s[k])
    {
      assert s[k] == d.indent[k - n - 1];
    }
    RunEndIsFirst(s, n + 1, j, IsIndent);
  }

  /** What `.*` consumes after the reason holds no newline. */
  lemma RestChars(s: string, d: Split)
    requires IsSplitOf(s, d)
    ensures d.NearStart() <= |s|
    ensures forall k | d.Start() + HeadLength <= k < d.Start() + HeadLength + |d.rest| :: s[k] != '\n'
  {
    HeadPositions(s, d);
    var e := d.Start() + HeadLength;
    forall k | e <= k < e + |d.rest|
      ensures s[k] != '\n'
    {
      assert s[k] == s[e..e + |d.rest|][k - e];
    }
  }

  /** What `[\t \n]* *` consumes is blank. */
  lemma BlankChars(s: string, d: Split)
    requires IsSplitOf(s, d)
    ensures d.NearStart() <= |s|
    ensures forall k | d.Start() + HeadLength + |d.rest| <= k < d.NearStart() :: IsBlank(s[k])
  {
    GapPositions(s, d);
    var p := d.NearStart();
    var y := p - |d.spaces|;
    var x := y - |d.blanks|;
    forall k | x <= k < p
      ensures IsBlank(s[k])
    {
      if k < y {
        assert s[k] == s[x..y][k - x];
      } else {
        assert s[k] == s[y..p][k - y];
      }
    }
  }

  /** A reading's gap is the rest of the head's line, then blank characters. */
  lemma SplitGap(s: string, d: Split)
    requires IsSplitOf(s, d)
    ensures GapSpans(s, d.Start() + HeadLength, d.NearStart())
  {
    RestChars(s, d);
    BlankChars(s, d);
  }

  /** Every reading of `s` against the pattern is a match found by index, and
      its captured group is the line from its group start. */
  lemma SplitIsMatch(s: string, d: Split)
    requires IsSplitOf(s, d)
    ensures MatchAt(s, d.Start(), d.NearStart())
    ensures d.near == s[d.NearStart()..LineEnd(s, d.NearStart())]
  {
    SplitHead(s, d);
    SplitGap(s, d);
    SplitCaret(s, d);
  }

  /** When the scan finds nothing, the pattern has no reading at all. */
  lemma NoMatchNoSplit(s: string)
    requires NoMatchBetween(s, 0, |s| + 1)
    ensures !Matches(s)
  {
    forall d | IsSplitOf(s, d)
      ensures false
    {
      SplitIsMatch(s, d);
    }
  }

  /** The reading behind the scan's hit is the one Ruby reports. */
  lemma HitIsRubyMatch(s: string, h: Hit, d: Split)
    requires NoMatchBetween(s, 0, h.start) && LatestMatchAt(s, h.start, h.nearStart)
    requires IsSplitOf(s, d) && d.Start() == h.start && d.NearStart() == h.nearStart
    ensures IsRubyMatch(s, d)
  {
    forall d' | IsSplitOf(s, d')
      ensures d.Start() < d'.Start() || (d.Start() == d'.Start() && d'.NearStart() <= d.NearStart())
    {
      SplitIsMatch(s, d');
    }
  }

  /** Two readings Ruby would both report capture the same group. */
  lemma {:induction false} RubyMatchUnique(s: string, d1: Split, d2: Split)
    requires IsRubyMatch(s, d1) && IsRubyMatch(s, d2)
    ensures d1.Start() == d2.Start() && d1.NearStart() == d2.NearStart()
    ensures d1.near == d2.near
  {
    SplitIsMatch(s, d1);
    SplitIsMatch(s, d2);
  }

  /**
    The group captured by `/#{error} ';' expected#{near_regex}/.match(s)`, or
    `None` where Ruby's `match` returns `nil`. It answers exactly when the
    pattern has a reading, and then with the group of the reading Ruby picks.
   */
  function MissingSemicolonNear(s: string): (r: Option<string>)
    ensures r.Some? <==> Matches(s)
    ensures r.Some? ==> IsRubyNear(s, r.value) && '\n' !in r.value
  {
    match FirstMatchFrom(s, 0)
    case None =>
      NoMatchNoSplit(s);
      None
    case Some(h) =>
      var d := SplitAt(s, h.start, h.nearStart);
      HitIsRubyMatch(s, h, d);
      assert d.near[..] == d.near;
      Some(d.near)
  }

  /**
    `explain_missing_semicolon(_, result)`: the submission is ignored; on a
    match the answer is the one-field record `{near: <group>}`, otherwise nil.
   */
  function ExplainMissingSemicolon(submission: string, diagnostic: string): (r: Option<map<string, string>>)
    ensures r.Some? <==> Matches(diagnostic)
    ensures r.Some? ==>
      && r.value.Keys == {"near"}
      && IsRubyNear(diagnostic, r.value["near"])
      && '\n' !in r.value["near"]
  {
    match MissingSemicolonNear(diagnostic)
    case Some(near) => Some(map["near" := near])
    case None => None
  }

  /** The rule is a function of the diagnostic text: the submission it is
      handed makes no difference. */
  lemma SubmissionIgnored(a: string, b: string, diagnostic: string)
    ensures ExplainMissingSemicolon(a, diagnostic) == ExplainMissingSemicolon(b, diagnostic)
  {
  }

  /** The text a head occupies is one of the two spellings of the head. */
  lemma HeadText(s: string, i: nat)
    requires HeadAt(s, i)
    ensures s[i..i + HeadLength] == "error: ';' expected" || s[i..i + HeadLength] == "Error: ';' expected"
  {
    assert s[i..i + HeadLength] == s[i..i + 6] + s[i + 6..i + HeadLength];
    HeadSpellings();
  }

  /** The two spellings of the head, written out. */
  lemma HeadSpellings()
    ensures "error:" + Reason == "error: ';' expected"
    ensures "Error:" + Reason == "Error: ';' expected"
  {
  }

  /** No `error: ';' expected` and no `Error: ';' expected` in the text: no
      explanation. */
  lemma {:induction false} NoneWithoutReason(submission: string, s: string)
    requires forall i: nat, j: nat | j == i + 19 <= |s| ::
               s[i..j] != "error: ';' expected" && s[i..j] != "Error: ';' expected"
    ensures ExplainMissingSemicolon(submission, s) == None
  {
    forall d | IsSplitOf(s, d)
      ensures false
    {
      SplitIsMatch(s, d);
      HeadText(s, d.Start());
    }
    assert !Matches(s);
  }

  /** No line made of one or more spaces or tabs and then a caret: no
      explanation. */
  lemma {:induction false} NoneWithoutCaretLine(submission: string, s: string)
    requires forall n: nat, j: nat | n + 1 < j < |s| && s[n] == '\n' && s[j] == '^' ::
               !All(s[n + 1..j], IsIndent)
    ensures ExplainMissingSemicolon(submission, s) == None
  {
    forall d | IsSplitOf(s, d)
      ensures false
    {
      TailPositions(s, d);
    }
  }

  /** Whenever Ruby's match exists, the matcher returns its group. */
  lemma {:induction false} RubyMatchIsResult(s: string, d: Split)
    requires IsRubyMatch(s, d)
    ensures MissingSemicolonNear(s) == Some(d.near)
  {
    var r := MissingSemicolonNear(s);
    var d2 :| IsRubyMatch(s, d2) && d2.near == r.value;
    RubyMatchUnique(s, d, d2);
  }

  /** The reading of the usual javac layout: nothing after the reason on its
      line, the line break and the indentation as blanks. */
  function LayoutSplit(prefix: string, marker: string, indentation: string,
                       line: string, caretIndent: string, suffix: string): Split
  {
    Split(prefix, marker, "", "\n" + indentation, "", line, caretIndent, suffix)
  }

  /** The usual javac layout is a reading of the pattern. */
  lemma LayoutIsSplit(
    s: string, prefix: string, marker: string, indentation: string,
    line: string, caretIndent: string, suffix: string)
    requires s == prefix + (marker + Reason + "\n") + (indentation + line + "\n") + (caretIndent + "^") + suffix
    requires IsErrorMarker(marker)
    requires All(indentation, IsBlank)
    requires All(line, IsLineChar)
    requires |caretIndent| > 0 && All(caretIndent, IsIndent)
    ensures IsSplitOf(s, LayoutSplit(prefix, marker, indentation, line, caretIndent, suffix))
  {
    var blanks := "\n" + indentation;
    forall k | 0 <= k < |blanks|
      ensures IsBlank(blanks[k])
    {
      if k > 0 {
        assert blanks[k] == indentation[k - 1];
      }
    }
    assert LayoutSplit(prefix, marker, indentation, line, caretIndent, suffix).Compose() == s;
  }

  /**
    The usual javac layout: the reason ends its line, the offending line
    follows after any blank characters, then the caret line. The captured
    group is the offending line without its indentation.
   */
  lemma {:induction false} NearIsLineWithoutIndentation(
    s: string, prefix: string, marker: string, indentation: string,
    line: string, caretIndent: string, suffix: string)
    requires s == prefix + (marker + Reason + "\n") + (indentation + line + "\n") + (caretIndent + "^") + suffix
    requires IsErrorMarker(marker)
    requires All(indentation, IsBlank)
    requires |line| > 0 && !IsBlank(line[0]) && All(line, IsLineChar)
    requires |caretIndent| > 0 && All(caretIndent, IsIndent)
    requires forall k: nat | k < |prefix| :: !HeadAt(s, k)
    ensures MissingSemicolonNear(s) == Some(line)
  {
    var d := LayoutSplit(prefix, marker, indentation, line, caretIndent, suffix);
    LayoutIsSplit(s, prefix, marker, indentation, line, caretIndent, suffix);
    GapPositions(s, d);
    TailPositions(s, d);
    var e := |prefix| + HeadLength;
    LineEndIsFirst(s, e, e);
    assert s[d.NearStart()] == line[0];
    forall d' | IsSplitOf(s, d')
      ensures d.Start() < d'.Start() || (d.Start() == d'.Start() && d'.NearStart() <= d.NearStart())
    {
      SplitIsMatch(s, d');
    }
    RubyMatchIsResult(s, d);
  }

  /** After the reason's line break, a caret line holds no newline. */
  lemma CaretLineHasNoNewline(s: string, marker: string, indent: string)
    requires s == marker + Reason + "\n" + indent + "^"
    requires All(indent, IsIndent)
    ensures forall k | |marker + Reason| < k < |s| :: s[k] != '\n'
  {
    var u := marker + Reason + "\n";
    assert s == u + indent + "^";
    forall k | |marker + Reason| < k < |s|
      ensures s[k] != '\n'
    {
      if k < |u| + |indent| {
        assert s[k] == indent[k - |u|];
      }
    }
  }

  /** A caret line right after the reason's line: the group `(.*)` is empty,
      because no later group start is followed by a caret line. */
  lemma {:induction false} EmptyNearWhenCaretFollowsReason(
    submission: string, s: string, marker: string, indent: string)
    requires s == marker + Reason + "\n" + indent + "^"
    requires IsErrorMarker(marker)
    requires |indent| > 0 && All(indent, IsIndent)
    ensures ExplainMissingSemicolon(submission, s) == Some(map["near" := ""])
  {
    var d := Split("", marker, "", "", "", "", indent, "");
    assert d.Compose() == s;
    CaretLineHasNoNewline(s, marker, indent);
    forall d' | IsSplitOf(s, d')
      ensures d.Start() < d'.Start() || (d.Start() == d'.Start() && d'.NearStart() <= d.NearStart())
    {
      SplitIsMatch(s, d');
    }
    RubyMatchIsResult(s, d);
    NearGivesRecord(submission, s, "");
  }

  /** The record the rule builds from the captured group. */
  lemma NearGivesRecord(submission: string, s: string, near: string)
    requires MissingSemicolonNear(s) == Some(near)
    ensures ExplainMissingSemicolon(submission, s) == Some(map["near" := near])
  {
  }

  /** The three lines of the compiler output below, each cut into the pieces
      of the usual javac layout. */
  lemma JavacLines()
    ensures "" + ("error:" + Reason + "\n") == "error: ';' expected\n"
    ensures "        " + "Assert.assertEquals(2, 3)" + "\n" == "        Assert.assertEquals(2, 3)\n"
    ensures "                                 " + "^" == "                                 ^"
  {
  }

  /** That compiler output, written line by line: the explanation points at
      `Assert.assertEquals(2, 3)`, without its indentation. */
  lemma JavacMissingSemicolonExample(submission: string, diagnostic: string)
    requires diagnostic ==
      "error: ';' expected\n"
      + "        Assert.assertEquals(2, 3)\n"
      + "                                 ^"
      + "\n1 error\n"
    ensures ExplainMissingSemicolon(submission, diagnostic) == Some(map["near" := "Assert.assertEquals(2, 3)"])
  {
    assert diagnostic ==
      "" + ("error:" + Reason + "\n")
      + ("        " + "Assert.assertEquals(2, 3)" + "\n")
      + ("                                 " + "^")
      + "\n1 error\n"
    by {
      JavacLines();
    }
    NearIsLineWithoutIndentation(diagnostic, "", "error:", "        ", "Assert.assertEquals(2, 3)",
                                 "                                 ", "\n1 error\n");
    NearGivesRecord(submission, diagnostic, "Assert.assertEquals(2, 3)");
  }

  /** An upper-case `ERROR:` is not an error marker. */
  lemma UpperCaseMarkerIgnored(submission: string)
    ensures ExplainMissingSemicolon(submission, "ERROR: ';' expected\nx\n ^") == None
  {
    var s := "ERROR: ';' expected\nx\n ^";
    forall i: nat, j: nat | j == i + 19 <= |s|
      ensures s[i..j] != "error: ';' expected" && s[i..j] != "Error: ';' expected"
    {
      if i == 0 {
        assert s[i..j][1] == s[1] == 'R';
      } else {
        assert s[i..j][5] == s[i + 5] != ':';
      }
    }
    NoneWithoutReason(submission, s);
  }
}
