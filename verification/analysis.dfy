/**
  The analysis step of `main`: guard on the inputs, extract the resume text,
  pick the prompt, call the generator once, then parse the percentage, derive
  the donut-chart values and offer the response for download.

  The generator (`ATSAnalyzer.get_gemini_response`) is a parameter. It maps a
  call's ordinal and its three inputs (prompt, resume text, job description)
  to `None` (the call raised and an error was shown) or `Some(text)`. The
  ordinal lets successive calls with the same inputs answer differently, as a
  remote model may. The pipeline reaches the generator only through `Invoke`,
  which appends the call to the run's trace and passes the trace's length as
  the ordinal. So the number of generator calls is the trace's length.
 */
module Analysis {
  import opened Wrappers
  import opened Percentage
  import opened Prompts
  import opened PdfText

  /** The donut chart's two slices: `Match` and `Gap`. */
  datatype ChartValues = ChartValues(matchValue: int, gapValue: int)

  /** The download button's payload. */
  datatype Download = Download(fileName: string, data: string)

  const DOWNLOAD_FILE_NAME: string := "resume_analysis.txt"

  /** What a successful analysis shows: the chart only when a percentage was found; the response always. */
  datatype Report = Report(response: string, percentage: Option<nat>, chart: Option<ChartValues>, download: Download)

  datatype Outcome =
    | NotStarted          // no file uploaded or an empty job description: nothing to analyse
    | ExtractionFailed    // extraction raised; its error was shown and nothing else happens
    | NoText              // extraction gave "", which the truthiness test treats like a failure
    | GenerationFailed    // the generator raised; its error was shown and nothing else happens
    | EmptyResponse       // the generator gave "", which the truthiness test skips
    | Crashed             // `int()` raised ValueError on an over-long digit run; nothing catches it
    | Analysed(report: Report)

  /** One call to the generator with its three ordered inputs. */
  datatype GenerateCall = GenerateCall(prompt: string, resumeText: string, jobDescription: string)

  datatype Run = Run(outcome: Outcome, calls: seq<GenerateCall>)

  /** (call ordinal, prompt, resume text, job description) to the response, or `None` when the call raised. */
  type Generator = (nat, string, string, string) -> Option<string>

  /** Makes one generator call: records it in the trace and answers it as the call numbered by the trace's length. */
  function Invoke(calls: seq<GenerateCall>, generate: Generator, call: GenerateCall): (r: (seq<GenerateCall>, Option<string>))
    ensures |r.0| == |calls| + 1 && r.0[..|calls|] == calls && r.0[|calls|] == call
    ensures r.1 == generate(|calls|, call.prompt, call.resumeText, call.jobDescription)
  {
    (calls + [call], generate(|calls|, call.prompt, call.resumeText, call.jobDescription))
  }

  /** `pd.DataFrame({'Value': [p, 100 - p]})`: the gap slice is whatever makes the two sum to 100. */
  function Chart(p: int): (c: ChartValues)
    ensures c.matchValue == p
    ensures c.matchValue + c.gapValue == 100
  {
    ChartValues(p, 100 - p)
  }

  /** What lines 147-188 produce from a non-empty response. */
  function Interpret(response: string): (o: Outcome)
    requires response != ""
    ensures o.Crashed? <==> ExtractPercentage(response).IntError?
    ensures o.Analysed? <==> !ExtractPercentage(response).IntError?
    ensures o.Analysed? ==>
              var r := o.report;
              && r.response == response
              && (r.percentage.Some? <==> ExtractPercentage(response).Percent?)
              && (r.percentage.Some? ==> r.percentage.value == ExtractPercentage(response).value)
              && (r.chart.Some? <==> r.percentage.Some?)
              && (r.chart.Some? ==> r.chart.value.matchValue == r.percentage.value
                                    && r.chart.value.matchValue + r.chart.value.gapValue == 100)
              && r.download == Download(DOWNLOAD_FILE_NAME, response)
  {
    match ExtractPercentage(response)
    case IntError => Crashed
    case NoMatch => Analysed(Report(response, None, None, Download(DOWNLOAD_FILE_NAME, response)))
    case Percent(p) => Analysed(Report(response, Some(p), Some(Chart(p)), Download(DOWNLOAD_FILE_NAME, response)))
  }

  method Analyze(upload: Option<PdfDocument>, jobDescription: string, analysisType: string, generate: Generator)
    returns (run: Run)
    // line 107: nothing happens without both inputs
    ensures run.outcome.NotStarted? <==> upload.None? || jobDescription == ""
    // extraction failure and empty text both skip the generator
    ensures upload.Some? && jobDescription != "" ==>
              (run.outcome.ExtractionFailed? <==> DocumentText(upload.value).None?)
    ensures upload.Some? && jobDescription != "" ==>
              (run.outcome.NoText? <==> DocumentText(upload.value) == Some(""))
    // the generator is called at most once, and exactly once when there is text
    ensures |run.calls| <= 1
    ensures |run.calls| == 1 <==>
              upload.Some? && jobDescription != "" && DocumentText(upload.value).Some? && DocumentText(upload.value).value != ""
    ensures |run.calls| == 1 ==>
              run.calls[0] == GenerateCall(TemplateText(SelectPrompt(analysisType)), DocumentText(upload.value).value, jobDescription)
    // the first call's response decides the rest: a missing or empty one produces nothing further
    ensures |run.calls| == 1 ==>
              var response := generate(0, run.calls[0].prompt, run.calls[0].resumeText, run.calls[0].jobDescription);
              && (run.outcome.GenerationFailed? <==> response.None?)
              && (run.outcome.EmptyResponse? <==> response == Some(""))
              && (response.Some? && response.value != "" ==> run.outcome == Interpret(response.value))
    // a report shows the response, the optional percentage, the chart iff a percentage, and downloads the response verbatim
    ensures run.outcome.Analysed? ==>
              var r := run.outcome.report;
              && |run.calls| == 1
              && r.response != ""
              && r.response == generate(0, run.calls[0].prompt, run.calls[0].resumeText, run.calls[0].jobDescription).value
              && (r.percentage.Some? <==> ExtractPercentage(r.response).Percent?)
              && (r.chart.Some? <==> r.percentage.Some?)
              && (r.chart.Some? ==> r.chart.value.matchValue + r.chart.value.gapValue == 100)
              && r.download == Download(DOWNLOAD_FILE_NAME, r.response)
    // only an over-long digit run before the first `%` makes the run crash
    ensures run.outcome.Crashed? ==>
              && |run.calls| == 1
              && ExtractPercentage(generate(0, run.calls[0].prompt, run.calls[0].resumeText, run.calls[0].jobDescription).value).IntError?
  {
    if upload.None? || jobDescription == "" {
      return Run(NotStarted, []);
    }
    var text := ExtractText(upload.value);
    assert text == DocumentText(upload.value);
    if text.None? {
      return Run(ExtractionFailed, []);
    }
    if text.value == "" {
      return Run(NoText, []);
    }
    var prompt := TemplateText(SelectPrompt(analysisType));
    var (calls, response) := Invoke([], generate, GenerateCall(prompt, text.value, jobDescription));
    if response.None? {
      return Run(GenerationFailed, calls);
    }
    if response.value == "" {
      return Run(EmptyResponse, calls);
    }
    return Run(Interpret(response.value), calls);
  }

  /** `"150%"` is not clamped: the chart becomes (150, -50). */
  lemma ChartNotClamped()
    ensures ExtractPercentage("150%").Percent?
    ensures Chart(ExtractPercentage("150%").value) == ChartValues(150, -50)
  {
    ExampleNoClamping();
  }
}
