# Java feedback: missing-semicolon explainer and test-file template

This project models two pieces of the Java runner of the Mumuki platform in Dafny and proves
properties about them:

- **`JavaFeedbackHook`** (`lib/feedback_hook.rb`) turns a failed compilation into feedback.
  - The hook (`run!`) looks only at the first test result. It hands that result to the
    explainer only when it is raw compiler output (a Ruby `String`).
  - The rule `explain_missing_semicolon` matches the regular expression
    `[eE]rror: ';' expected.*[\t \n]* *(.*)\n[ \t]+\^` against that output. It answers with the
    record `{near: <captured group>}`, or `nil` when there is no match.
- **`TestCompiler#compile`** (`lib/test_compiler.rb`) builds the Java file that gets compiled. It
  splices the submission, the extra declarations and the test methods into a fixed template:
  two imports, a class `SubmissionTest`, and a `main` that calls JUnit.

Modules:

| file | module | contents |
|---|---|---|
| `wrappers.dfy` | `Wrappers` | `Option`, which stands in for Ruby's `nil` |
| `scan.dfy` | `Scan` | character classes of the pattern, runs of a class, line ends, slice gluing |
| `missing_semicolon_pattern.dfy` | `MissingSemicolonPattern` | what the pattern means (see below) |
| `java_explainer.dfy` | `JavaExplainer` | an executable matcher, proved to return Ruby's match |
| `feedback_hook.dfy` | `FeedbackHook` | the `run!` guard |
| `test_compiler.dfy` | `TestCompiler` | the template, its layout, and an inverse `Parse` |

**What the regular expression means.** A `Split` cuts a text into the pieces the pattern's parts
consume: prefix, marker, reason, `.*`, `[\t \n]*`, ` *`, the group, the newline, `[ \t]+`, the
caret, and the suffix. `IsSplitOf` says a cut is legal. A text may have several legal cuts.
`IsRubyMatch` picks the one Ruby's backtracking engine reports:

- the leftmost start;
- at that start, the latest start of the captured group.

The greedy `.*`, `[\t \n]*` and ` *` are tried longest first. The caret test depends only on where
the group starts, so the first group start that succeeds is the latest one that can succeed.

**The matcher.** `JavaExplainer.MissingSemicolonNear` works on indices:

- it scans start positions left to right;
- from each head `[eE]rror: ';' expected`, it searches group starts downward from the end of the
  blank run that follows the head's line.

It is proved to answer exactly when some cut exists, and then with the group of Ruby's cut.

What the code captures, and the model with it:

- the captured group keeps trailing spaces;
- between the reason's line and the offending line, only blank characters (spaces, tabs,
  newlines) may appear;
- leading spaces and tabs of the offending line are not captured, because the gap absorbs them;
- when the caret line directly follows the reason's line, the group is empty.

## Model

| member | source | states |
|---|---|---|
| MissingSemicolonPattern.IsErrorMarker | lib/feedback_hook.rb:15-17 | the marker `[eE]rror:`: exactly `error:` or `Error:` |
| MissingSemicolonPattern.IsSplitOf | lib/feedback_hook.rb:11-13 | a legal reading of the text against the pattern: each piece is drawn from the class its part accepts, and the pieces glue back to the text |
| MissingSemicolonPattern.IsRubyMatch | lib/feedback_hook.rb:20 | the reading Ruby's `match` reports: the leftmost start, and at that start the latest group start |
| JavaExplainer.HeadAt | lib/feedback_hook.rb:20 | `#{error} ';' expected` occurs at a position |
| JavaExplainer.GapSpans | lib/feedback_hook.rb:12 | `.*[\t \n]* *` can consume exactly the text between the head and a group start |
| JavaExplainer.CaretLineAfter | lib/feedback_hook.rb:12 | `(.*)\n[ \t]+\^` matches from a group start |
| Scan.LineEnd | lib/feedback_hook.rb:12 | `.` stops at the first newline: no newline lies in `[p, n)`, and `n` is a newline or the end of the text |
| JavaExplainer.LatestCaretStart | lib/feedback_hook.rb:12 | the latest group start in a range that the line `\n[ \t]+\^` follows, or none if there is no such start |
| JavaExplainer.NearStartAfter | lib/feedback_hook.rb:12 | after the head, the latest group start that `.*[\t \n]* *` can reach and a caret line follows; none means no reachable start has a caret line |
| JavaExplainer.FirstMatchFrom | lib/feedback_hook.rb:20 | the leftmost start at or after `i` where the whole pattern matches, with its latest group start; none means no match starts anywhere from `i` on |
| JavaExplainer.SplitAt | lib/feedback_hook.rb:20 | every match found by index is a legal cut of the text with the same start and group start |
| JavaExplainer.SplitIsMatch | lib/feedback_hook.rb:20 | every legal cut is a match by index, and its group is the line from the group start up to the next newline |
| JavaExplainer.RubyMatchUnique | lib/feedback_hook.rb:20-21 | Ruby's choice is unique: two cuts that both meet it agree on start, group start and captured text |
| JavaExplainer.MissingSemicolonNear | lib/feedback_hook.rb:20 | `match` is non-nil exactly when the pattern has a cut, and then the answer is Ruby's captured group, which holds no newline |
| JavaExplainer.ExplainMissingSemicolon | lib/feedback_hook.rb:19-23 | the answer is `{near: group}` exactly when the diagnostic matches, with `near` as its only key holding Ruby's group; otherwise nil |
| JavaExplainer.SubmissionIgnored | lib/feedback_hook.rb:19 | the first argument (the submission) never changes the answer |
| JavaExplainer.NoneWithoutReason | lib/feedback_hook.rb:15-20 | a diagnostic containing neither `error: ';' expected` nor `Error: ';' expected` gets no explanation |
| JavaExplainer.NoneWithoutCaretLine | lib/feedback_hook.rb:11-13 | a diagnostic with no line made of spaces or tabs and then a caret gets no explanation |
| JavaExplainer.UpperCaseMarkerIgnored | lib/feedback_hook.rb:15-17 | only `e` and `E` may open the marker: `ERROR: ';' expected` is not explained |
| JavaExplainer.RubyMatchIsResult | lib/feedback_hook.rb:20-21 | whenever a cut meets Ruby's choice, the matcher returns its group (completeness) |
| JavaExplainer.NearIsLineWithoutIndentation | lib/feedback_hook.rb:11-13 | for javac's layout (reason, offending line after any blanks, caret line) and no earlier head, the group is the offending line without its indentation |
| JavaExplainer.EmptyNearWhenCaretFollowsReason | lib/feedback_hook.rb:11-13 | a head whose line is followed directly by the caret line is explained with an empty `near` |
| JavaExplainer.JavacMissingSemicolonExample | spec/feedback_runner_spec.rb:16-24 | javac's output for a test missing a semicolon after `Assert.assertEquals(2, 3)` is explained with `near` = that call, without indentation |
| FeedbackHook.First | lib/feedback_hook.rb:4 | `test_results[0]` is the first result, or nil on an empty list |
| FeedbackHook.Run | lib/feedback_hook.rb:2-7 | the explainer runs exactly when the first result is raw compiler text, on the request content and that text; otherwise the hook answers nil |
| FeedbackHook.StructuredNeverExplained | lib/feedback_hook.rb:6 | a structured first result is never explained, whatever follows it |
| FeedbackHook.OnlyFirstResultInspected | lib/feedback_hook.rb:4 | two result lists that agree on element 0 get the same answer |
| FeedbackHook.HookExplainsMissingSemicolon | spec/feedback_runner_spec.rb:16-24 | with the missing-semicolon rule as explainer, that javac output as the first result yields `{near: "Assert.assertEquals(2, 3)"}` |
| TestCompiler.Compile | lib/test_compiler.rb:15-32 | the file is the slots plus 175 template characters; it opens with the two imports and closes with the two closing braces |
| TestCompiler.Layout | lib/test_compiler.rb:16-31 | each slot sits verbatim at a fixed offset between fixed template pieces; the class line precedes the test methods and `main` follows them |
| TestCompiler.Parse | lib/test_compiler.rb:16-31 | reading the slots back: whenever it succeeds, compiling its result gives back the text, with the given slot lengths |
| TestCompiler.CutCompiles | lib/test_compiler.rb:16-31 | a text with the template pieces in place is the compilation of the slots between them |
| TestCompiler.ParseCompile | lib/test_compiler.rb:16-31 | `Parse` inverts `compile`: it recovers the request from the file, given the first two slot lengths |
| TestCompiler.ParseComplete | lib/test_compiler.rb:16-31 | when `Parse` fails, no request with those slot lengths compiles to the text |
| TestCompiler.BoundariesAmbiguous | lib/test_compiler.rb:20-22 | blank lines at the content/extra border may belong to either slot, so the file alone does not determine the request |

## Left out

- `TestCompiler#create_compilation!` (lib/test_compiler.rb:5-13) is left out. It creates a
  temporary directory and writes the compiled text to a file, which is file-system I/O.
- `Mumukit::Explainer#explain` is not part of this model. This is the library dispatch that calls
  every `explain_*` rule and renders the localized messages. `FeedbackHook.Run` takes it as the
  function parameter `explain`.
- The localized message texts are left out. They live in I18n tables, outside the two modelled Ruby files.
- `request.content`, `request.extra` and `request.test` are modelled as strings. A `nil` field
  interpolates as the empty string in the heredoc, and the model has no separate `nil`.
- `results.test_results` is modelled as a list, never `nil`.
- The structured test-result record carries a title, a status and a text. Its exact shape comes
  from the test hook, which is not part of this model. Only the fact that it is not a `String`
  matters to the hook.
- General regular-expression matching is left out. Only this one pattern is modelled, with
  Ruby's leftmost-first, greedy backtracking written out for it.
- Characters are Unicode scalar values. Ruby's string encodings are not modelled.
- The explainer's other rules are left out; their implementations are not part of this model.
  spec/feedback_runner_spec.rb exercises them: missing parenthesis (:26), missing bracket (:36),
  missing method declaration (:46), missing return statement (:56), missing method with type (:71),
  missing class (:84), missing variable (:94), missing parameter type (:104), missing
  implementation (:119), missing return type (:135), wrong types for classes and for primitives
  (:148, :169), private method should be public (:184), possible lossy conversion (:201), wrong
  constructor (:211), and, after the expectations hook, missing semicolon, parenthesis, bracket
  and parameter type (:244, :256, :268, :280).
- JavaExplainer.JavacMissingSemicolonExample: the compiler output is written out by hand in
  javac's usual layout (reason line, indented offending line, caret line, error count). The
  feedback spec obtains the real text by compiling, and the compiler is not part of this model.
