/**
  Prompt selection in `main`: the analysis type chosen on the radio widget picks
  one of two fixed instruction templates. Templates are not interpolated; the
  resume text and the job description travel as separate inputs.
 */
module Prompts {

  /** The two templates: the HR reviewer's qualitative evaluation, and the ATS expert's percentage-led report. */
  datatype PromptKind = HrReview | AtsMatch

  /** The radio option that selects the HR review; every other value selects the ATS template. */
  const DETAILED_REVIEW: string := "Detailed Resume Review"

  /** The radio widget's two options, in display order. */
  const ANALYSIS_TYPES: seq<string> := [DETAILED_REVIEW, "Match Percentage Analysis"]

  /** The indentation of the triple-quoted literals in the source: 28 spaces. */
  const INDENT: string := "                            "

  function SelectPrompt(analysisType: string): (k: PromptKind)
    ensures k == HrReview <==> analysisType == DETAILED_REVIEW
  {
    if analysisType == DETAILED_REVIEW then HrReview else AtsMatch
  }

  /** Lines laid out as in a triple-quoted literal: a leading newline, each line indented and ended, then the closing indentation. */
  function Layout(lines: seq<string>): (r: string)
    requires |lines| > 0
    ensures |r| >= 1 + |INDENT| + |lines[0]| + 1 + |INDENT|
    ensures r[..1 + |INDENT|] == "\n" + INDENT
    ensures r[1 + |INDENT|..1 + |INDENT| + |lines[0]|] == lines[0]
    ensures r[|r| - |INDENT|..] == INDENT
  {
    var body := IndentedLines(lines);
    assert body == INDENT + lines[0] + "\n" + IndentedLines(lines[1..]);
    var r := "\n" + body + INDENT;
    assert r == "\n" + INDENT + lines[0] + ("\n" + IndentedLines(lines[1..]) + INDENT);
    r
  }

  function IndentedLines(lines: seq<string>): string {
    if |lines| == 0 then "" else INDENT + lines[0] + "\n" + IndentedLines(lines[1..])
  }

  /** The first line of the HR review template, naming the reviewer's role. */
  const HR_OPENING: string :=
    "As an experienced Technical Human Resource Manager, provide a detailed professional evaluation "

  /** The first line of the ATS template, naming the expert's role. */
  const ATS_OPENING: string := "As an ATS (Applicant Tracking System) expert, provide:"

  const HR_LINES: seq<string> := [
    HR_OPENING,
    "of the candidate's resume against the job description. Please analyze:",
    "1. Overall alignment with the role",
    "2. Key strengths and qualifications that match",
    "3. Notable gaps or areas for improvement",
    "4. Specific recommendations for enhancing the resume",
    "5. Final verdict on suitability for the role",
    "",
    "Format the response with clear headings and professional language."
  ]

  const ATS_LINES: seq<string> := [
    ATS_OPENING,
    "1. Overall match percentage (%)",
    "2. Key matching keywords found",
    "3. Important missing keywords",
    "4. Skills gap analysis",
    "5. Specific recommendations for improvement",
    "",
    "Start with the percentage match prominently displayed."
  ]

  function Opening(k: PromptKind): string {
    match k
    case HrReview => HR_OPENING
    case AtsMatch => ATS_OPENING
  }

  /** The lines of each template, in order; the first is the template's opening. */
  function TemplateLines(k: PromptKind): (lines: seq<string>)
    ensures |lines| > 0 && lines[0] == Opening(k)
  {
    match k
    case HrReview => HR_LINES
    case AtsMatch => ATS_LINES
  }

  /**
    The exact text sent to the generator for each template: a newline, then
    the template's lines, the first being its opening, each indented by 28
    spaces and ended by a newline, then 28 spaces.
   */
  function TemplateText(k: PromptKind): (r: string)
    ensures |r| >= 1 + |INDENT| + |Opening(k)| + 1 + |INDENT|
    ensures r[..1 + |INDENT|] == "\n" + INDENT
    ensures r[1 + |INDENT|..1 + |INDENT| + |Opening(k)|] == Opening(k)
    ensures r[|r| - |INDENT|..] == INDENT
  {
    Layout(TemplateLines(k))
  }

  /** The two radio options reach the two different templates. */
  lemma RadioOptionsReachBothTemplates()
    ensures SelectPrompt(ANALYSIS_TYPES[0]) == HrReview
    ensures SelectPrompt(ANALYSIS_TYPES[1]) == AtsMatch
  {
  }
}
