/**
  `TestCompiler#compile`: the Java file handed to the compiler, built by
  splicing the submission, the extra declarations and the test methods into
  a fixed heredoc template.
 */
module TestCompiler {
  import opened Wrappers
  import opened Scan

  /** The request fields the template reads. A field Ruby leaves `nil`
      interpolates as the empty string. */
  datatype Request = Request(content: string, extra: string, test: string)

  /** The two import lines the file always starts with. */
  const Imports: string := "import java.util.*;\nimport org.junit.*;\n"

  /** The line opening the test class. */
  const ClassLine: string := "public class SubmissionTest {\n"

  /** The statement `main` runs. */
  const MainCall: string := "  org.junit.runner.JUnitCore.main(\"SubmissionTest\");\n"

  /** Template text before the submission. */
  const Header: string := Imports + "\n"

  /** Template text between the submission and the extra declarations. */
  const ContentToExtra: string := "\n\n"

  /** Template text between the extra declarations and the test methods. */
  const ExtraToTest: string := "\n\n" + ClassLine

  /** Template text after the test methods: `main`, then the class's closing brace. */
  const Trailer: string := "\n\npublic static void main(String args[]) {\n" + MainCall + "}\n}\n"

  /** The file `compile` produces for `q`. */
  function Compile(q: Request): (r: string)
    ensures |r| == |q.content| + |q.extra| + |q.test| + 175
    ensures r[..40] == "import java.util.*;\nimport org.junit.*;\n"
    ensures r[|r| - 4..] == "}\n}\n"
  {
    Header + q.content + ContentToExtra + q.extra + ExtraToTest + q.test + Trailer
  }

  /** Where the submission starts. */
  const ContentStart: nat := 41

  /** Where the extra declarations start. */
  function ExtraStart(q: Request): nat {
    ContentStart + |q.content| + 2
  }

  /** Where the test methods start. */
  function TestStart(q: Request): nat {
    ExtraStart(q) + |q.extra| + 32
  }

  /**
    The layout of every generated file: the header, the submission verbatim,
    the extra declarations verbatim, the class line, the test methods
    verbatim right after it, then `main` calling JUnit and the closing braces.
    Only the three slots depend on the request.
   */
  lemma {:induction false} Layout(q: Request)
    ensures var r := Compile(q);
            var t := TestStart(q);
            && r[..ContentStart] == Header
            && r[ContentStart..ContentStart + |q.content|] == q.content
            && r[ContentStart + |q.content|..ExtraStart(q)] == ContentToExtra
            && r[ExtraStart(q)..ExtraStart(q) + |q.extra|] == q.extra
            && r[ExtraStart(q) + |q.extra|..t] == ExtraToTest
            && r[t..t + |q.test|] == q.test
            && r[t + |q.test|..] == Trailer
  {
    var r := Compile(q);
    assert |Header| == ContentStart && |ContentToExtra| == 2 && |ExtraToTest| == 32;
    var p1 := Header + q.content;
    var p2 := p1 + ContentToExtra;
    var p3 := p2 + q.extra;
    var p4 := p3 + ExtraToTest;
    var p5 := p4 + q.test;
    assert r == p5 + Trailer;
    PrefixSlice(r, p5, Trailer);
    PrefixSlice(r, p4, q.test);
    PrefixSlice(r, p3, ExtraToTest);
    PrefixSlice(r, p2, q.extra);
    PrefixSlice(r, p1, ContentToExtra);
    PrefixSlice(r, Header, q.content);
    assert r[|p5|..] == Trailer;
    assert |ContentToExtra| == 2;
    assert |ExtraToTest| == 32;
    assert ExtraStart(q) == |p2|;
    assert TestStart(q) == |p4|;
  }

  /**
    Reading a generated file back, given the lengths of the first two slots:
    the template pieces must sit where `compile` puts them, and the slots are
    what lies between them.
   */
  function Parse(text: string, contentLength: nat, extraLength: nat): (r: Option<Request>)
    ensures r.Some? ==>
      && Compile(r.value) == text
      && |r.value.content| == contentLength
      && |r.value.extra| == extraLength
  {
    if TemplateFits(text, contentLength, extraLength) then
      var q := Cut(text, contentLength, extraLength);
      CutCompiles(text, contentLength, extraLength);
      Some(q)
    else
      None
  }

  /** The template pieces sit where `compile` puts them for these slot lengths. */
  predicate TemplateFits(text: string, contentLength: nat, extraLength: nat) {
    var b := |Header| + contentLength;
    var d := b + |ContentToExtra| + extraLength;
    && d + |ExtraToTest| + |Trailer| <= |text|
    && text[..|Header|] == Header
    && text[b..b + |ContentToExtra|] == ContentToExtra
    && text[d..d + |ExtraToTest|] == ExtraToTest
    && text[|text| - |Trailer|..] == Trailer
  }

  /** The slots between the template pieces. */
  function Cut(text: string, contentLength: nat, extraLength: nat): Request
    requires TemplateFits(text, contentLength, extraLength)
  {
    var b := |Header| + contentLength;
    var c := b + |ContentToExtra|;
    var d := c + extraLength;
    var e := d + |ExtraToTest|;
    Request(text[|Header|..b], text[c..d], text[e..|text| - |Trailer|])
  }

  /** Compiling the slots `Cut` reads gives back the text. */
  lemma CutCompiles(text: string, contentLength: nat, extraLength: nat)
    requires TemplateFits(text, contentLength, extraLength)
    ensures var q := Cut(text, contentLength, extraLength);
            && Compile(q) == text
            && |q.content| == contentLength
            && |q.extra| == extraLength
  {
    var b := |Header| + contentLength;
    var d := b + |ContentToExtra| + extraLength;
    var q := Cut(text, contentLength, extraLength);
    assert q == Request(text[|Header|..b], text[b + |ContentToExtra|..d], text[d + |ExtraToTest|..|text| - |Trailer|]);
    Splice(text, Header, ContentToExtra, ExtraToTest, Trailer, b, d);
    assert Compile(q) == Header + q.content + ContentToExtra + q.extra + ExtraToTest + q.test + Trailer;
  }

  /** A text holding four fixed pieces at increasing positions is those
      pieces with the slots between them. */
  lemma Splice(s: string, h: string, m1: string, m2: string, t: string, b: nat, d: nat)
    requires |h| <= b && b + |m1| <= d && d + |m2| + |t| <= |s|
    requires s[..|h|] == h && s[b..b + |m1|] == m1 && s[d..d + |m2|] == m2
    requires s[|s| - |t|..] == t
    ensures s == h + s[|h|..b] + m1 + s[b + |m1|..d] + m2 + s[d + |m2|..|s| - |t|] + t
  {
    Reassemble(s, |h|, b, b + |m1|, d, d + |m2|, |s| - |t|);
  }

  /** `Parse` undoes `Compile`. */
  lemma {:induction false} ParseCompile(q: Request)
    ensures Parse(Compile(q), |q.content|, |q.extra|) == Some(q)
  {
    Layout(q);
  }

  /** `Parse` fails only on texts no request with those slot lengths produces. */
  lemma {:induction false} ParseComplete(text: string, contentLength: nat, extraLength: nat)
    requires Parse(text, contentLength, extraLength) == None
    ensures forall q: Request | |q.content| == contentLength && |q.extra| == extraLength :: Compile(q) != text
  {
    forall q: Request | |q.content| == contentLength && |q.extra| == extraLength
      ensures Compile(q) != text
    {
      ParseCompile(q);
    }
  }

  /** The slot boundaries cannot be recovered from the text alone: blank
      lines may belong to either neighbouring slot. */
  lemma {:induction false} BoundariesAmbiguous(content: string, extra: string, test: string)
    ensures Compile(Request(content + "\n\n", extra, test)) == Compile(Request(content, "\n\n" + extra, test))
  {
    var left := Header + (content + "\n\n") + ContentToExtra + extra;
    var right := Header + content + ContentToExtra + ("\n\n" + extra);
    assert left == right;
  }
}
