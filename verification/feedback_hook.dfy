/**
  `JavaFeedbackHook#run!`: the guard in front of the explainer. Only the
  first test result is looked at, and only raw compiler output is explained.
 */
module FeedbackHook {
  import opened Wrappers
  import JavaExplainer

  /** Outcome recorded in a structured test result. */
  datatype Status = Passed | Failed | Errored

  /** One element of `results.test_results`: the raw text of a run that did
      not compile (a Ruby `String`), or a structured per-test record. */
  datatype TestResult =
    | Diagnostic(text: string)
    | Structured(title: string, status: Status, result: string)

  /** Ruby's `array[0]`: `nil` on an empty array. */
  function First(testResults: seq<TestResult>): (r: Option<TestResult>)
    ensures r.Some? <==> |testResults| > 0
    ensures r.Some? ==> r.value == testResults[0]
  {
    if testResults == [] then None else Some(testResults[0])
  }

  /**
    `run!(request, results)`: `explain` stands for
    `JavaExplainer.new.explain(content, text)`, the library dispatch over the
    explainer's rules. It is called only when the first test result is raw
    text; otherwise the hook answers `nil`.
   */
  function Run<T>(content: string, testResults: seq<TestResult>, explain: (string, string) -> T): (r: Option<T>)
    ensures r.Some? <==> |testResults| > 0 && testResults[0].Diagnostic?
    ensures r.Some? ==> r.value == explain(content, testResults[0].text)
  {
    match First(testResults)
    case Some(Diagnostic(text)) => Some(explain(content, text))
    case _ => None
  }

  /** Structured results are never explained, whatever follows them. */
  lemma StructuredNeverExplained<T>(content: string, testResults: seq<TestResult>, explain: (string, string) -> T)
    requires |testResults| > 0 && testResults[0].Structured?
    ensures Run(content, testResults, explain) == None
  {
  }

  /** Only element 0 is inspected: results that agree on it get the same answer. */
  lemma OnlyFirstResultInspected<T>(content: string, a: seq<TestResult>, b: seq<TestResult>, explain: (string, string) -> T)
    requires |a| > 0 && |b| > 0 && a[0] == b[0]
    ensures Run(content, a, explain) == Run(content, b, explain)
  {
  }

  /** With the missing-semicolon rule as the explainer, the javac output of a
      test lacking a semicolon yields the record pointing at that line. */
  lemma HookExplainsMissingSemicolon(content: string, diagnostic: string, later: seq<TestResult>)
    requires diagnostic ==
      "error: ';' expected\n"
      + "        Assert.assertEquals(2, 3)\n"
      + "                                 ^"
      + "\n1 error\n"
    ensures Run(content, [Diagnostic(diagnostic)] + later, JavaExplainer.ExplainMissingSemicolon)
            == Some(Some(map["near" := "Assert.assertEquals(2, 3)"]))
  {
    JavaExplainer.JavacMissingSemicolonExample(content, diagnostic);
  }
}
