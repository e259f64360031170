# Resume analyzer: the analysis pipeline in Dafny

This project models the analysis pipeline of the ATS resume analyzer. The rest
of the program is Streamlit UI around it. The pipeline, in the source's terms:

- `ATSAnalyzer.extract_text_from_pdf` appends the text of every page of the
  uploaded PDF, in order and with no separator. Any exception gives `None`.
- `main` selects one of two fixed prompt templates from the analysis type
  chosen on the radio widget.
- `main` calls `ATSAnalyzer.get_gemini_response` once with (prompt, resume text,
  job description). An exception there gives `None`.
- `main` finds the first `(\d+)%` in the response and turns its digits into an
  integer with `int(...)`.
- When a percentage is found, `main` draws a donut chart of `(p, 100 - p)`.
- `main` shows the response and offers it, unchanged, as `resume_analysis.txt`.

Modules:

- `Wrappers` (`wrappers.dfy`): `Option`, standing for Python's `None`-or-value.
- `Percentage` (`percentage.dfy`): the regex search and `int()`.
  `SearchFrom` follows the engine: it tries start positions from left to
  right, and at each one the maximal digit run must end at a `%`. Its contract
  states the declarative meaning. That is the leftmost start `i` with a `k`
  where `s[i..k]` is all digits and `s[k] == '%'`. `IntOf` is `int()`
  including CPython's default limit of 4300 digits (`sys.int_max_str_digits`,
  leading zeros counted). Past that limit `int()` raises `ValueError`. The
  lemmas describe the result in terms of the first `%` that has a digit in
  front of it.
- `Prompts` (`prompts.dfy`): the template choice and the exact template texts.
  The texts keep the literal's leading newline, its 28-space indentation and
  its trailing space.
- `PdfText` (`pdf_text.dfy`): a document is either unparseable or a sequence of
  pages. A page either yields its text or raises. `ExtractText` is the source's
  loop. `DocumentText` and `Concat` are the reference definitions of its result.
- `Analysis` (`analysis.dfy`): the control flow of `main` from the input guard
  to the download button. The generator is a function parameter. It takes the
  call's ordinal as well as its three inputs, so a repeated call may answer
  differently. The pipeline reaches the generator only through `Invoke`.
  `Invoke` appends the call to a trace and answers it as the call numbered by
  the trace's length. So the trace's length is the number of generator calls.

Facts about the program that the model keeps:

- The percentage is not clamped to 0..100: `"150%"` gives 150, and the chart
  gives `(150, -50)`.
- Extraction is all-or-nothing. If any page raises, the whole result is `None`;
  a failing page never contributes empty text.
- A PDF whose pages all yield `""` gives the text `""`. The test `if pdf_text:`
  treats that like a failure, so the generator is not called. The model keeps
  this case as its own outcome, `NoText`.
- The analysis result does not record which analysis type produced it.
- A first digit run longer than 4300 digits makes `int()` raise `ValueError`.
  Nothing in `main` catches it, so no chart, response panel or download is
  produced. The model's outcome for this is `Crashed`.

## Model

| member | source | states |
|---|---|---|
| `Percentage.RunEnd` | app.py:150 | The greedy `\d+` from a position stops at the end of the maximal digit run. Everything before that end is a digit, and the end is either the end of the text or a non-digit. |
| `Percentage.SearchFrom` | app.py:150 | `re.search` returns the leftmost start `i` at which the pattern matches. Group 1 is `s[i..k]`, with all digits, `k > i` and `s[k] == '%'`. No earlier start matches. The result is `None` exactly when no start position matches. |
| `Percentage.DecimalValue` | app.py:152 | The number a digit string denotes. A string of `n` digits denotes a number below `10^n`. |
| `Percentage.DecimalValueLeftToRight` | app.py:152 | Read left to right, the first digit carries weight `10^(n-1)`. This is the usual positional meaning of a decimal numeral, which `int()` implements. |
| `Percentage.IntOf` | app.py:152 | `int()` raises `ValueError` exactly when the digit string is longer than 4300 digits. Otherwise it returns the string's decimal value. |
| `Percentage.ExtractPercentage` | app.py:149-152 | The result is no match exactly when the pattern matches at no position. A percentage is the decimal value of some match's digits, at most 4300 of them. An `int()` error comes from a match with more than 4300 digits. |
| `Percentage.NoneIffNoPercentAfterDigit` | app.py:149-152 | There is no match exactly when no `%` in the response has a digit right before it. |
| `Percentage.PercentageOfFirstRun` | app.py:150-152 | Take the first `%` that has a digit before it, and the whole digit run in front of it, extended as far left as the digits go. The result is that run's decimal value, or the `int()` error when the run has more than 4300 digits. |
| `Percentage.MatchIsFirstRun` | app.py:150 | Conversely, the reported match always ends at that first `%` and starts where that maximal digit run starts. |
| `Percentage.FirstMatchWins` | app.py:150 | Once a text has a match, appending any text after it leaves the result unchanged. |
| `Percentage.LeadingZeroIgnored` | app.py:152 | A leading `"0"` does not change the number. `int()` ignores it while the string stays within 4300 digits. At exactly 4300 digits, the extra zero turns a value into a `ValueError`. |
| `Percentage.ExampleFirstOfTwo` | app.py:150-152 | `"85% match, 15% gap"` gives 85. |
| `Percentage.ExampleLeadingZeros` | app.py:150-152 | `"007%"` gives 7. |
| `Percentage.ExampleNoClamping` | app.py:150-152 | `"150%"` gives 150: the value is not clamped. |
| `Percentage.ExampleLetterBeforePercent` | app.py:149-152 | `"abc%"` gives no match. |
| `Percentage.ExampleNoPercentSign` | app.py:149-152 | `"no match stated"` gives no match. |
| `Percentage.ExampleDigitLimit` | app.py:150-152 | 4300 ones before a `%` give a percentage. 4301 ones make `int()` raise. |
| `Percentage.ExampleStatedMatch` | app.py:150-152 | `"Match: 90%"` gives 90. |
| `Percentage.ExampleStubbedReply` | app.py:150-152 | `"Match: 90% ... keywords: Python, AWS"` gives 90. |
| `Prompts.SelectPrompt` | app.py:121-143 | The HR review template is chosen exactly when the analysis type is `"Detailed Resume Review"`. Every other string chooses the ATS template. |
| `Prompts.TemplateText` | app.py:122-143 | Each template is its triple-quoted literal. The literal has a leading newline, then lines indented by 28 spaces, then 28 closing spaces. Its first line names the role: the HR manager or the ATS expert. |
| `Prompts.RadioOptionsReachBothTemplates` | app.py:109-143 | Of the radio's two options, the first selects the HR review and the second selects the ATS template. |
| `PdfText.DocumentText` | app.py:26-35 | The text is `None` exactly when the file cannot be parsed or some page's extraction raises. It is `""` exactly when the file parses and every page yields `""`. |
| `PdfText.ExtractText` | app.py:26-35 | The loop's result is `None` exactly when the file cannot be parsed or some page's extraction raises. Otherwise it is the in-order, separator-free concatenation of all page texts, as `DocumentText` defines. |
| `PdfText.ConcatAppend` | app.py:29-31 | Joining two runs of pages joins their texts, so the text is built page by page in order. |
| `PdfText.ConcatLength` | app.py:29-31 | The extracted text is as long as all page texts together: nothing is inserted or dropped. |
| `PdfText.PageInPlace` | app.py:29-31 | Page `j`'s text appears, unchanged, in the extracted text right after the texts of pages `0..j-1`. |
| `PdfText.ConcatEmptyIff` | app.py:29-32 | The extracted text is `""` exactly when every page yields `""`, as for an image-only PDF. |
| `Analysis.Chart` | app.py:158-161 | The chart's `Match` value is the percentage, and `Match` and `Gap` always add up to 100. |
| `Analysis.ChartNotClamped` | app.py:152-161 | `"150%"` gives the chart `(150, -50)`. |
| `Analysis.Interpret` | app.py:147-188 | A non-empty response crashes exactly when `int()` raises on its first match. Otherwise it yields a report. The report holds the response. Its percentage is present exactly when one was parsed. It has a chart exactly when it has a percentage, and the chart adds up to 100. Its download is the response, unchanged, as `resume_analysis.txt`. |
| `Analysis.Analyze` | app.py:107-188 | Nothing starts without a file and a non-empty job description. If extraction gives `None` or `""`, the generator is never called. Otherwise it is called exactly once, with the selected template, the extracted text and the job description. A `None` or `""` response from that first call produces no report. Otherwise the outcome is what `Interpret` makes of that response. |

## Left out

- Streamlit layout, CSS, tabs, the radio and button widgets, spinners and
  `st.error`/`st.info` messages are presentation only. The outcomes
  `ExtractionFailed` and `GenerationFailed` mark where an error message is shown.
- PyPDF2 parsing is a foreign library. A document is modelled as unparseable or
  as a sequence of per-page results.
- The Gemini model configuration, the API key from the environment (`dotenv`)
  and the network call are external I/O. The generator is a function
  parameter returning `None` (the call raised) or the response text.
- Altair/pandas chart rendering is left out. Only the integer pair
  `(p, 100 - p)` is kept.
- Python's `\d` and `int()` also accept non-ASCII Unicode digits. The model
  treats only ASCII `'0'..'9'` as digits.
- The 4300-digit limit of `int()` is CPython's default. The model does not
  cover changing it with `sys.set_int_max_str_digits` or
  `PYTHONINTMAXSTRDIGITS`. It also does not cover interpreters older than the
  limit, which have no such limit.
- `Analysis.Analyze` does not model the button press that gates the analysis.
  The analysis runs whenever both inputs are present.
