# OniKanji flashcard audit — verified model of the row pipeline

The audit script reads a CSV of kanji flashcards and sends each row to a
text-generation service with an audit prompt. It collects the answers into a
Markdown report. This project models the script's row pipeline in Dafny:

- `clean_value` turns a missing cell into the literal `"None"` and strips the
  whitespace around any other cell.
- `row_to_dict` builds a dict from column names to cleaned cells.
- `format_row_for_prompt` joins the `k: v` lines with newlines.
- The prompt is built with `AUDIT_PROMPT_TEMPLATE.format(...)`.
- `call_deepseek` turns every exception raised by the request and the reading
  of its reply into an error sentinel string.
- `audit_csv_file` applies the onyomi skip rule and appends each retained
  row's answer plus a blank line after a two-line header. It then joins
  everything with newlines.
- `audit_single_row` has an index guard.

Modules, one per concern:

- `Text` (text.dfy): Python's `str.strip()` and `sep.join`, plus a one-character
  `split` used as the inverse of join.
- `OrderedDict` (ordered_dict.dfy): an insertion-ordered `dict[str, str]` with
  assignment (`Put`) and `dict.get` with a default (`Get`).
- `Rows` (rows.dfy): cells, rows, `clean_value`, `row_to_dict`,
  `format_row_for_prompt`.
- `Prompt` (prompt.dfy): prompt construction.
- `Client` (client.dfy): `call_deepseek` over an abstract service.
- `Audit` (audit.dfy): `audit_csv_file` as an imperative method, and
  `audit_single_row`, with the lemmas about the report.

Modelling decisions:

- **The prompt is the template.** The active template contains no brace, so it
  opens no replacement field. `str.format` ignores keyword arguments no field
  names. The template is therefore a parameter of type `Prompt.Template`: a
  string with no `{` and no `}`. Building a prompt returns it unchanged. Every
  row sends the same request, and the row's data never reaches the service
  (`Audit.RequestsAreTemplate`, `Audit.ReportIgnoresRowContents`). That the
  script's own text has no braces is a fact of that text; it is not proved here.
- **The service.** It is a parameter `service(n, prompt)`: what request
  number `n` of a run (from 0) yields, either `Reply(content)` or
  `Raised(details)`. The number lets one prompt sent twice get two different
  answers, as a remote model does.
- **Cells.** A cell is `Missing` (NaN or None) or `Text(s)`, with whatever
  string pandas produced for it.
- **Rows.** A row is the sequence of `(column, cell)` pairs in column order.
  Column names may repeat: the dict keeps the first position and the last
  value, as a Python dict does. The lemmas that need distinct names say so.
- **Row indices.** The CSV reader gives the frame the default `RangeIndex`,
  so "in the index" is modelled as `0 <= rowIndex < |rows|`.
- **The report.** `audit_csv_file` returns the text it would write, along with
  the prompts it sent in order. Writing the file is not modelled.
- **Empty cells.** A whitespace-only text cell cleans to `""`, not to `"None"`.
  Only a missing cell, or a text cell that strips to exactly `"None"` (for
  example `" None "`), becomes the marker (`Rows.CleanValueIsNone`).

## Model

| member | source | states |
|---|---|---|
| Text.Strip | src/audit_script.py:208 | `str.strip()`; specified by Text.StripSpec and characterised independently by Text.StripUnique |
| Text.Join | src/audit_script.py:218 | `sep.join(xs)`: the empty and one-element cases; specified further by Text.JoinSnoc and Text.SplitJoin |
| Text.TrimLeftSpec | src/audit_script.py:208 | what the left half of `strip()` keeps is a suffix of the input that does not start with whitespace, and everything it dropped is whitespace |
| Text.TrimRightSpec | src/audit_script.py:208 | what the right half keeps is a prefix that does not end with whitespace, and everything it dropped is whitespace |
| Text.StripSpec | src/audit_script.py:208 | `strip()` returns the slice between the leading and trailing whitespace runs, and that slice neither starts nor ends with whitespace |
| Text.StripUnique | src/audit_script.py:208 | any trimmed core with any whitespace around it strips back to exactly that core, so strip is pinned down independently of its definition |
| Text.StripIdempotent | src/audit_script.py:208 | stripping twice is stripping once |
| Text.JoinSnoc | src/audit_script.py:353 | adding one element to a non-empty list appends the separator and that element to the join |
| Text.JoinEndsWithLast | src/audit_script.py:218 | a non-empty join ends with its last element |
| Text.SplitJoin | src/audit_script.py:218 | for a non-empty list of separator-free lines, splitting their join on the separator gives the lines back |
| OrderedDict.Put | src/audit_script.py:213 | dict assignment; specified by OrderedDict.PutKeys, OrderedDict.PutAbsent, OrderedDict.PutValid, OrderedDict.GetPutSame and OrderedDict.GetPutOther |
| OrderedDict.Get | src/audit_script.py:320-321 | `dict.get` with a default; specified by OrderedDict.GetAbsent and OrderedDict.GetAt |
| OrderedDict.PutKeys | src/audit_script.py:213 | assigning a key keeps the key order if the key is present, and appends the key otherwise |
| OrderedDict.PutAbsent | src/audit_script.py:213 | assigning an absent key appends the pair at the end |
| OrderedDict.PutValid | src/audit_script.py:213 | assignment keeps the keys distinct |
| OrderedDict.GetAbsent | src/audit_script.py:320-321 | `get` on an absent key gives the default |
| OrderedDict.GetAt | src/audit_script.py:320-321 | in a dict with distinct keys, `get` on the key at position i gives that entry's value |
| OrderedDict.GetPutSame | src/audit_script.py:213 | after assigning k, `get(k)` gives the new value |
| OrderedDict.GetPutOther | src/audit_script.py:213 | assigning k leaves `get` of every other key unchanged |
| Rows.CleanValue | src/audit_script.py:204-208 | a missing cell gives exactly "None"; a text cell gives its stripped text; the result never starts or ends with whitespace |
| Rows.CleanValueIsNone | src/audit_script.py:204-208 | proof helper, the definition unfolded: the cleaned value is "None" exactly when the cell is missing or its text strips to "None" |
| Rows.RowToDict | src/audit_script.py:211-213 | `row_to_dict`, one assignment per cell in column order; specified by Rows.RowToDictKeys, Rows.RowToDictIsCleaned, Rows.RowToDictGet and Rows.CleanedValuesTrimmed |
| Rows.RowToDictKeys | src/audit_script.py:211-213 | the dict's keys are distinct and are exactly the row's column names: none added, none dropped |
| Rows.RowToDictDistinct | src/audit_script.py:211-213 | with distinct column names, the dict is the row with each cell cleaned: same length, same order |
| Rows.RowToDictIsCleaned | src/audit_script.py:211-213 | with distinct column names, the dict is exactly the sequence of (column, cleaned cell) pairs of the row |
| Rows.RowToDictGet | src/audit_script.py:211-213 | with distinct column names, looking up a column gives its cleaned cell; looking up an absent column gives the default |
| Rows.FormatRowForPrompt | src/audit_script.py:216-218 | an empty dict gives ""; a one-entry dict gives exactly "k: v" |
| Rows.FormatHasNoTrailingNewline | src/audit_script.py:216-218 | with trimmed values the block never ends in a newline |
| Rows.CleanedRowHasNoTrailingNewline | src/audit_script.py:204-218 | the block formatted from any cleaned row never ends in a newline |
| Rows.CleanedValuesTrimmed | src/audit_script.py:204-213 | every value of a cleaned row, duplicate columns included, is trimmed |
| Rows.FormatRoundTrip | src/audit_script.py:216-218 | for a non-empty dict (an empty block splits to `[""]`), splitting the block on newlines gives back the `k: v` lines when no name or value holds a newline |
| Prompt.BuildPrompt | src/audit_script.py:287-291 | the prompt for one row from a brace-free template; specified by Prompt.PromptIgnoresRow |
| Prompt.PromptIgnoresRow | src/audit_script.py:92-199 | the prompt equals the template verbatim and is the same for any row data, kanji id and kanji |
| Client.ErrorSentinel | src/audit_script.py:262 | the text a failed call returns: the fixed prefix, the exception's message and a closing bracket; specified by Client.SentinelRoundTrip |
| Client.CallDeepseek | src/audit_script.py:246-262 | `call_deepseek` as request number n; specified by Client.CallDeepseekSpec and Client.FailureLooksLikeReply |
| Client.SentinelRoundTrip | src/audit_script.py:261-262 | the sentinel is the fixed prefix, the details and "]", and the details can be read back from it |
| Client.CallDeepseekSpec | src/audit_script.py:252-262 | a reply comes back as its content with the surrounding whitespace removed; an exception of the request or of reading its reply comes back as exactly the sentinel for its details (prefix, details, closing "]"), and none escapes |
| Client.FailureLooksLikeReply | src/audit_script.py:260-262 | a failing call yields exactly what a reply consisting of the sentinel text yields, so the report cannot tell them apart |
| Audit.Skipped | src/audit_script.py:325-331 | the skip rule on a cleaned dict; characterised on the row by Audit.SkipRuleOnRow |
| Audit.PromptFor | src/audit_script.py:320-341 | the prompt for a cleaned row: the formatted row, the `kanjiID` value (default "Unknown") and the `kanji` value (default "N/A") passed to the template; since the template is brace-free it is the template itself, by Prompt.PromptIgnoresRow and Audit.RequestsAreTemplate |
| Audit.Retained | src/audit_script.py:318-333 | the rows kept are no more than the rows read, and none of them satisfies the skip rule |
| Audit.Requests | src/audit_script.py:334-341 | the prompts of the batch loop, one per retained row, in order; specified by Audit.RequestsSnoc and Audit.RequestsAreTemplate |
| Audit.Responses | src/audit_script.py:343-344 | request j answered by the call numbered j; specified by Audit.ResponsesSnoc |
| Audit.Entries | src/audit_script.py:345-346 | each answer followed by a blank line; specified by Audit.EntriesSnoc and Audit.EntriesShape |
| Audit.ReportLines | src/audit_script.py:314-346 | the contents of `report_lines` after the loop; specified by Audit.LinesShape, Audit.ReportShape and Audit.ReportDocument |
| Audit.AuditCsvFile | src/audit_script.py:300-353 | the prompts sent are exactly one per retained row, in dataset order; the report is the newline-join of the header followed by each answer and a blank line |
| Audit.AuditSingleRow | src/audit_script.py:264-297 | an index outside 0..n-1 stops before any request; otherwise the single request sends that row's prompt and its answer is what the call returns |
| Audit.ReadingOnRow | src/audit_script.py:326-331 | with distinct column names, a reading is "None" exactly when every cell of that column cleans to "None"; an absent column counts as "None" |
| Audit.SkipRuleOnRow | src/audit_script.py:325-333 | with distinct column names, a row is skipped exactly when all three onyomi reading columns clean to "None" |
| Audit.RetainedKeepsRow | src/audit_script.py:318-333 | every row the skip rule does not reject is kept, cleaned, right after the rows kept before it |
| Audit.RetainedAppend | src/audit_script.py:318-333 | filtering distributes over concatenation, so retained rows keep dataset order |
| Audit.RetainedOne | src/audit_script.py:331-333 | proof helper, the filter unfolded on one row: a single row is kept exactly when the skip rule does not reject it |
| Audit.RetainedAllSkipped | src/audit_script.py:331-333 | skipped rows leave nothing behind: no request and no report entry |
| Audit.RetainedStep | src/audit_script.py:318-333 | proof helper, the filter unfolded one step: one more row extends the retained rows by that row, unless it is skipped |
| Audit.RequestsSnoc | src/audit_script.py:334-341 | one more retained row adds its prompt at the end of the requests |
| Audit.ResponsesSnoc | src/audit_script.py:343-344 | one more request adds its answer at the end and leaves the earlier answers alone |
| Audit.EntriesSnoc | src/audit_script.py:345-346 | proof helper, the definition unfolded one step: one more answer appends it and a blank line |
| Audit.ReportStep | src/audit_script.py:343-346 | one more request appends its answer and "" to the report lines |
| Audit.EntriesShape | src/audit_script.py:345-346 | the entries have two lines per answer: answer j at position 2j and "" at 2j+1 |
| Audit.FramedLines | src/audit_script.py:314-346 | any two header lines followed by the entries: answer j at 2+2j and "" at 3+2j, 2+2k lines in all |
| Audit.LinesShape | src/audit_script.py:314-346 | the report lines are the two header lines, then for request j its answer at 2+2j and "" at 3+2j |
| Audit.ReportShape | src/audit_script.py:314-346 | k retained rows give 2+2k lines: the header, then for row j the answer to request j (which sends the template) and a blank line |
| Audit.FailedCallIsReported | src/audit_script.py:261-262 | a request that raises still gets its entry, the sentinel and then "", and every later row still has its entry |
| Audit.FramedDocument | src/audit_script.py:352-353 | joining any two header lines and the entries gives the first line, a newline, the second line and each answer framed by newlines |
| Audit.DocumentOfEntries | src/audit_script.py:352-353 | joining the header and the entries gives the title line, a newline, the intro line, and each answer framed by newlines |
| Audit.ReportDocument | src/audit_script.py:352-353 | the document written is the title line, a newline, the intro line, then each retained row's answer framed by newlines |
| Audit.RequestsAreTemplate | src/audit_script.py:337-341 | every request of the batch loop is the bare template, whatever the row |
| Audit.ReportIgnoresRowContents | src/audit_script.py:337-346 | under the same service, two datasets with the same number of retained rows produce the same requests and the same report |
| Audit.ThreeRowScenario | src/audit_script.py:318-346 | a skipped row followed by two kept rows gives the header and two entries, from requests 0 and 1 |
| Audit.EntriesOfTwo | src/audit_script.py:345-346 | two answers give the answer, "", the answer, "" |
| Audit.RetainedOfThree | src/audit_script.py:318-333 | the rows retained from three rows are those retained from each, in order |
| Audit.SingleRowGuard | src/audit_script.py:273-275 | proof helper restating the guard: an in-range row is audited even when all its readings are "None" (single-row mode has no skip rule); an out-of-range index gives no audit |
| Audit.SingleRowMatchesReport | src/audit_script.py:264-346 | single-row mode on the first retained row sends the same prompt as the batch's first request (request 0 of its run), so a service that answers request 0 of both runs the same way gives the same entry |

## Left out

- The OpenAI client, endpoint, model name, temperature, token limit and
  response parsing: network calls. They are replaced by the `service`
  parameter, whose `Raised` case stands for every exception the request or
  the reading of its reply raises.
- The commented-out `requests` client and the older template with real
  placeholders: dead code.
- `load_dotenv` and the API key lookup: environment I/O.
- The client construction in `call_deepseek` (src/audit_script.py:247-250)
  runs outside the `try`. An exception there, for instance for a missing API
  key, escapes `call_deepseek` and aborts `audit_csv_file` before the report
  is written. This is not modelled: every modelled call returns a string.
- `pd.read_csv`: its NaN detection, dtype inference and the `str()` of
  numeric cells (a float-typed id prints as `442.0`). Cells arrive as
  `Missing` or `Text`.
- The two file-reading exception handlers of `audit_csv_file` and the one of
  `audit_single_row`: file I/O.
- `time.sleep(1)` between requests: wall-clock throttling.
- All console output, including the response `audit_single_row` prints. The
  model returns that response instead.
- The `open(...).write` of the report, and newline translation on write. The
  model returns the text.
- The audit rules written inside the template: their text is opaque to the
  code.
- Prompt.BuildPrompt: models only brace-free templates. Substitution into
  replacement fields is not modelled, because the template the script uses
  has none.
- Audit.AuditSingleRow: models only the default `RangeIndex`. A frame with a
  custom index, where `df.loc` looks up labels, is not modelled.
