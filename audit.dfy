/** The two entry points of the audit script: `audit_csv_file`, which audits every
    retained row into one report document, and `audit_single_row`, which audits
    one row chosen by index. */
module Audit {
  import opened Text
  import opened OrderedDict
  import opened Rows
  import opened Prompt
  import opened Client

  /** The two lines every report starts with; each carries its own newline. */
  const TitleLine: string := "# OniKanji Flashcard Audit Report\n"
  const IntroLine: string := "This report audits each row for formatting, naturalness, furigana, multiple choice, and consistency.\n"
  const ReportHeader: seq<string> := [TitleLine, IntroLine]

  /** The three columns the skip rule reads. */
  const ReadingOne: string := "onyomiReadingOne"
  const ReadingTwo: string := "onyomiReadingTwo"
  const ReadingThree: string := "onyomiReadingThree"

  /** The skip rule: all three readings are "None", a column the row lacks
      reading as "None". */
  predicate Skipped(d: Dict) {
    && Get(d, ReadingOne, NoneMarker) == NoneMarker
    && Get(d, ReadingTwo, NoneMarker) == NoneMarker
    && Get(d, ReadingThree, NoneMarker) == NoneMarker
  }

  /** The prompt the script builds for a cleaned row. */
  function PromptFor(template: Template, d: Dict): string {
    BuildPrompt(template, FormatRowForPrompt(d), Get(d, "kanjiID", "Unknown"), Get(d, "kanji", "N/A"))
  }

  /** The cleaned rows the skip rule keeps, in dataset order. */
  function Retained(rows: seq<Row>): (ds: seq<Dict>)
    ensures |ds| <= |rows|
    ensures forall j :: 0 <= j < |ds| ==> !Skipped(ds[j])
  {
    if |rows| == 0 then []
    else
      var d := RowToDict(rows[|rows| - 1]);
      Retained(rows[..|rows| - 1]) + (if Skipped(d) then [] else [d])
  }

  /** The prompts sent for the given rows, one each, in order. */
  function Requests(template: Template, ds: seq<Dict>): seq<string>
  {
    seq(|ds|, j requires 0 <= j < |ds| => PromptFor(template, ds[j]))
  }

  /** What a run's requests yield: request number j answered by `call_deepseek`. */
  function Responses(service: Service, prompts: seq<string>): seq<string>
  {
    seq(|prompts|, j requires 0 <= j < |prompts| => CallDeepseek(service, j, prompts[j]))
  }

  /** The report entries: each response followed by a blank separator. */
  function Entries(responses: seq<string>): seq<string> {
    if |responses| == 0 then []
    else
      var n := |responses| - 1;
      Entries(responses[..n]) + [responses[n], ""]
  }

  /** The contents of `report_lines` once every row has been seen. */
  function ReportLines(rows: seq<Row>, template: Template, service: Service): seq<string> {
    ReportHeader + Entries(Responses(service, Requests(template, Retained(rows))))
  }

  /** The report body as text: each response framed by two newlines. */
  function Blocks(responses: seq<string>): string {
    if |responses| == 0 then ""
    else
      var n := |responses| - 1;
      Blocks(responses[..n]) + "\n" + responses[n] + "\n"
  }

  /** `audit_csv_file` once the CSV has been read: returns the text written to the
      report file and the prompts sent to the service, in order. */
  method AuditCsvFile(rows: seq<Row>, template: Template, service: Service) returns (report: string, requests: seq<string>)
    ensures requests == Requests(template, Retained(rows))
    ensures report == Join("\n", ReportLines(rows, template, service))
  {
    var reportLines: seq<string> := [];
    reportLines := reportLines + [TitleLine];
    reportLines := reportLines + [IntroLine];
    requests := [];

    for i := 0 to |rows|
      invariant requests == Requests(template, Retained(rows[..i]))
      invariant reportLines == ReportHeader + Entries(Responses(service, requests))
    {
      RetainedStep(rows, i);
      var rowDict := RowToDict(rows[i]);
      var kanjiId := Get(rowDict, "kanjiID", "Unknown");
      var kanjiChar := Get(rowDict, "kanji", "N/A");

      if Skipped(rowDict) {
        continue;
      }

      var rowDataStr := FormatRowForPrompt(rowDict);
      var prompt := BuildPrompt(template, rowDataStr, kanjiId, kanjiChar);
      var aiResponse := CallDeepseek(service, |requests|, prompt);
      RequestsSnoc(template, Retained(rows[..i]), rowDict);
      ReportStep(service, requests, prompt);
      requests := requests + [prompt];
      reportLines := reportLines + [aiResponse];
      reportLines := reportLines + [""];
    }

    assert rows[..|rows|] == rows;
    report := Join("\n", reportLines);
  }

  /** What `audit_single_row` does for an index: stops at the index guard, or
      audits that row with the run's only request. */
  datatype SingleAudit = NotInIndex | Audited(prompt: string, response: string)

  /** `audit_single_row` once the CSV has been read. The CSV reader numbers rows
      0..n-1, so an index is in the frame's index exactly when it is in that range. */
  function AuditSingleRow(rows: seq<Row>, rowIndex: int, template: Template, service: Service): (r: SingleAudit)
    ensures r.NotInIndex? <==> !(0 <= rowIndex < |rows|)
    ensures r.Audited? ==> r.prompt == PromptFor(template, RowToDict(rows[rowIndex]))
                           && r.response == CallDeepseek(service, 0, r.prompt)
  {
    if !(0 <= rowIndex < |rows|) then NotInIndex
    else
      var rowDict := RowToDict(rows[rowIndex]);
      var prompt := PromptFor(template, rowDict);
      Audited(prompt, CallDeepseek(service, 0, prompt))
  }

  // ----- the skip rule -----

  /** Every cell of column `c` in the row cleans to "None". */
  predicate ColumnCleansToNone(row: Row, c: string) {
    forall i :: 0 <= i < |row| && row[i].0 == c ==> CleanValue(row[i].1) == NoneMarker
  }

  /** On a row with distinct column names, one reading is "None" exactly when
      the column is absent or its cell cleans to "None". */
  lemma ReadingOnRow(row: Row, c: string)
    requires Distinct(Columns(row))
    ensures Get(RowToDict(row), c, NoneMarker) == NoneMarker <==> ColumnCleansToNone(row, c)
  {
    RowToDictGet(row, c, NoneMarker);
    if c in Columns(row) {
      var i :| 0 <= i < |row| && Columns(row)[i] == c;
      assert row[i].0 == c;
    }
  }

  /** On a row with distinct column names, the skip rule holds exactly when
      every cell of each of the three reading columns cleans to "None"; a
      reading column the row lacks imposes nothing. */
  lemma SkipRuleOnRow(row: Row)
    requires Distinct(Columns(row))
    ensures Skipped(RowToDict(row)) <==>
            ColumnCleansToNone(row, ReadingOne) && ColumnCleansToNone(row, ReadingTwo) && ColumnCleansToNone(row, ReadingThree)
  {
    ReadingOnRow(row, ReadingOne);
    ReadingOnRow(row, ReadingTwo);
    ReadingOnRow(row, ReadingThree);
  }

  // ----- retained rows -----

  /** Filtering distributes over concatenation: rows are kept in dataset order. */
  lemma {:induction false} RetainedAppend(a: seq<Row>, b: seq<Row>)
    ensures Retained(a + b) == Retained(a) + Retained(b)
  {
    if |b| == 0 {
      assert a + b == a;
    } else {
      var n := |b| - 1;
      assert (a + b)[..|a + b| - 1] == a + b[..n];
      assert (a + b)[|a + b| - 1] == b[n];
      RetainedAppend(a, b[..n]);
    }
  }

  lemma RetainedOne(r: Row)
    ensures Retained([r]) == if Skipped(RowToDict(r)) then [] else [RowToDict(r)]
  {
    assert [r][..0] == [];
  }

  /** Every row the skip rule does not reject is kept, cleaned, right after the
      rows kept before it. */
  lemma RetainedKeepsRow(rows: seq<Row>, i: nat)
    requires i < |rows| && !Skipped(RowToDict(rows[i]))
    ensures |Retained(rows[..i])| < |Retained(rows)|
    ensures Retained(rows)[|Retained(rows[..i])|] == RowToDict(rows[i])
  {
    assert rows == rows[..i + 1] + rows[i + 1..];
    RetainedAppend(rows[..i + 1], rows[i + 1..]);
    RetainedStep(rows, i);
  }

  /** Rows the skip rule rejects leave nothing behind. */
  lemma {:induction false} RetainedAllSkipped(rows: seq<Row>)
    requires forall i :: 0 <= i < |rows| ==> Skipped(RowToDict(rows[i]))
    ensures Retained(rows) == []
  {
    if |rows| > 0 {
      RetainedAllSkipped(rows[..|rows| - 1]);
    }
  }

  // ----- the report -----

  /** Looking at one more row extends the retained rows by that row, unless
      the skip rule rejects it. */
  lemma RetainedStep(rows: seq<Row>, i: nat)
    requires i < |rows|
    ensures Retained(rows[..i + 1]) ==
            Retained(rows[..i]) + (if Skipped(RowToDict(rows[i])) then [] else [RowToDict(rows[i])])
  {
    assert rows[..i + 1][..i] == rows[..i];
  }

  lemma RequestsSnoc(template: Template, ds: seq<Dict>, d: Dict)
    ensures Requests(template, ds + [d]) == Requests(template, ds) + [PromptFor(template, d)]
  {
    var ds' := ds + [d];
    assert forall j :: 0 <= j < |ds| ==> ds'[j] == ds[j];
  }

  lemma EntriesSnoc(responses: seq<string>, r: string)
    ensures Entries(responses + [r]) == Entries(responses) + [r, ""]
  {
    assert (responses + [r])[..|responses|] == responses;
  }

  /** One more request appends its answer and a blank line to the report lines. */
  lemma ReportStep(service: Service, prompts: seq<string>, p: string)
    ensures ReportHeader + Entries(Responses(service, prompts + [p])) ==
            ReportHeader + Entries(Responses(service, prompts)) + [CallDeepseek(service, |prompts|, p)] + [""]
  {
    ResponsesSnoc(service, prompts, p);
    EntriesSnoc(Responses(service, prompts), CallDeepseek(service, |prompts|, p));
  }

  /** One more request adds its answer at the end; earlier answers stay. */
  lemma ResponsesSnoc(service: Service, prompts: seq<string>, p: string)
    ensures Responses(service, prompts + [p]) == Responses(service, prompts) + [CallDeepseek(service, |prompts|, p)]
  {
    var ps := prompts + [p];
    assert forall j :: 0 <= j < |prompts| ==> ps[j] == prompts[j];
  }

  lemma {:induction false} EntriesShape(responses: seq<string>)
    ensures |Entries(responses)| == 2 * |responses|
    ensures forall j :: 0 <= j < |responses| ==>
              Entries(responses)[2 * j] == responses[j] && Entries(responses)[2 * j + 1] == ""
  {
    if |responses| > 0 {
      var n := |responses| - 1;
      var prev := Entries(responses[..n]);
      var all := Entries(responses);
      EntriesShape(responses[..n]);
      assert all == prev + [responses[n], ""];
      forall j | 0 <= j < |responses|
        ensures all[2 * j] == responses[j] && all[2 * j + 1] == ""
      {
        if j < n {
          assert responses[..n][j] == responses[j];
          assert all[2 * j] == prev[2 * j] && all[2 * j + 1] == prev[2 * j + 1];
        }
      }
    }
  }

  /** The report lines for a run's requests: the header, then for request number
      j its answer and a blank line. */
  lemma LinesShape(service: Service, prompts: seq<string>)
    ensures var lines := ReportHeader + Entries(Responses(service, prompts));
            && |lines| == 2 + 2 * |prompts|
            && lines[0] == TitleLine && lines[1] == IntroLine
            && forall j :: 0 <= j < |prompts| ==>
                 lines[2 + 2 * j] == CallDeepseek(service, j, prompts[j]) && lines[3 + 2 * j] == ""
  {
    var rs := Responses(service, prompts);
    FramedLines(TitleLine, IntroLine, rs);
    assert forall j :: 0 <= j < |prompts| ==> rs[j] == CallDeepseek(service, j, prompts[j]);
  }

  /** Any two header lines followed by the entries: answer j at 2+2j, "" at 3+2j. */
  lemma FramedLines(title: string, intro: string, rs: seq<string>)
    ensures var lines := [title, intro] + Entries(rs);
            && |lines| == 2 + 2 * |rs|
            && lines[0] == title && lines[1] == intro
            && forall j :: 0 <= j < |rs| ==> lines[2 + 2 * j] == rs[j] && lines[3 + 2 * j] == ""
  {
    EntriesShape(rs);
    var e := Entries(rs);
    var lines := [title, intro] + e;
    forall j | 0 <= j < |rs|
      ensures lines[2 + 2 * j] == rs[j] && lines[3 + 2 * j] == ""
    {
      assert lines[2 + 2 * j] == e[2 * j];
      assert lines[3 + 2 * j] == e[2 * j + 1];
    }
  }

  /** `report_lines` is the header, then one entry per retained row, in order:
      the answer to request number j, which sends the template, and a blank
      line. So k retained rows give 2 + 2k lines. */
  lemma ReportShape(rows: seq<Row>, template: Template, service: Service)
    ensures var lines := ReportLines(rows, template, service); var k := |Retained(rows)|;
            && |lines| == 2 + 2 * k
            && lines[0] == TitleLine && lines[1] == IntroLine
            && forall j :: 0 <= j < k ==>
                 lines[2 + 2 * j] == CallDeepseek(service, j, template) && lines[3 + 2 * j] == ""
  {
    RequestsAreTemplate(template, Retained(rows));
    LinesShape(service, Requests(template, Retained(rows)));
  }

  /** A request that raises still produces its entry, the sentinel, and the run
      goes on: every later retained row still has its entry. */
  lemma FailedCallIsReported(rows: seq<Row>, template: Template, service: Service, j: nat, details: string)
    requires j < |Retained(rows)|
    requires service(j, template) == Raised(details)
    ensures |ReportLines(rows, template, service)| == 2 + 2 * |Retained(rows)|
    ensures ReportLines(rows, template, service)[2 + 2 * j] == ErrorSentinel(details)
    ensures ReportLines(rows, template, service)[3 + 2 * j] == ""
  {
    ReportShape(rows, template, service);
  }

  /** Joining any two header lines and the entries gives the first line, a
      newline, the second line and each answer framed by newlines. */
  lemma {:induction false} FramedDocument(title: string, intro: string, responses: seq<string>)
    ensures Join("\n", [title, intro] + Entries(responses)) == title + "\n" + intro + Blocks(responses)
  {
    if |responses| == 0 {
      assert [title, intro] + [] == [title, intro];
      assert [title, intro][1..] == [intro];
    } else {
      var n := |responses| - 1;
      var e := responses[n];
      var before := [title, intro] + Entries(responses[..n]);
      FramedDocument(title, intro, responses[..n]);
      var prev := Entries(responses[..n]);
      assert Entries(responses) == prev + [e, ""];
      assert [title, intro] + (prev + [e, ""]) == (before + [e]) + [""];
      JoinSnoc("\n", before, e);
      JoinSnoc("\n", before + [e], "");
    }
  }

  lemma DocumentOfEntries(responses: seq<string>)
    ensures Join("\n", ReportHeader + Entries(responses)) == TitleLine + "\n" + IntroLine + Blocks(responses)
  {
    FramedDocument(TitleLine, IntroLine, responses);
  }

  /** The document written to the report file: the two header lines joined by a
      newline, then each retained row's answer framed by newlines. */
  lemma ReportDocument(rows: seq<Row>, template: Template, service: Service)
    ensures Join("\n", ReportLines(rows, template, service)) ==
            TitleLine + "\n" + IntroLine + Blocks(Responses(service, Requests(template, Retained(rows))))
  {
    DocumentOfEntries(Responses(service, Requests(template, Retained(rows))));
  }

  /** Every request is the bare template, whatever the row. */
  lemma RequestsAreTemplate(template: Template, ds: seq<Dict>)
    ensures Requests(template, ds) == seq(|ds|, _ => template)
  {
    forall j | 0 <= j < |ds| ensures PromptFor(template, ds[j]) == template {
      PromptIgnoresRow(template, FormatRowForPrompt(ds[j]), Get(ds[j], "kanjiID", "Unknown"), Get(ds[j], "kanji", "N/A"),
                       "", "", "");
    }
  }

  /** So the report depends only on how many rows are retained, not on what
      those rows contain. */
  lemma ReportIgnoresRowContents(rows: seq<Row>, rows': seq<Row>, template: Template, service: Service)
    requires |Retained(rows)| == |Retained(rows')|
    ensures Requests(template, Retained(rows)) == Requests(template, Retained(rows'))
    ensures ReportLines(rows, template, service) == ReportLines(rows', template, service)
  {
    RequestsAreTemplate(template, Retained(rows));
    RequestsAreTemplate(template, Retained(rows'));
  }

  /** Three rows, the first skipped and the other two kept: the report has the
      header and two entries, requests 0 and 1, each sending the bare template. */
  lemma ThreeRowScenario(r0: Row, r1: Row, r2: Row, template: Template, service: Service)
    requires Skipped(RowToDict(r0)) && !Skipped(RowToDict(r1)) && !Skipped(RowToDict(r2))
    ensures Retained([r0, r1, r2]) == [RowToDict(r1), RowToDict(r2)]
    ensures ReportLines([r0, r1, r2], template, service) ==
            ReportHeader + [CallDeepseek(service, 0, template), "", CallDeepseek(service, 1, template), ""]
  {
    var rows := [r0, r1, r2];
    RetainedOfThree(r0, r1, r2);
    RetainedOne(r0);
    RetainedOne(r1);
    RetainedOne(r2);
    assert Retained(rows) == [] + [RowToDict(r1)] + [RowToDict(r2)] == [RowToDict(r1), RowToDict(r2)];
    RequestsAreTemplate(template, Retained(rows));
    assert Requests(template, Retained(rows)) == [template, template];
    EntriesOfTwo(template, service);
  }

  lemma RetainedOfThree(r0: Row, r1: Row, r2: Row)
    ensures Retained([r0, r1, r2]) == Retained([r0]) + Retained([r1]) + Retained([r2])
  {
    RetainedAppend([r0], [r1]);
    RetainedAppend([r0, r1], [r2]);
    assert [r0] + [r1] == [r0, r1];
    assert [r0, r1] + [r2] == [r0, r1, r2];
  }

  lemma EntriesOfTwo(template: Template, service: Service)
    ensures Entries(Responses(service, [template, template])) ==
            [CallDeepseek(service, 0, template), "", CallDeepseek(service, 1, template), ""]
  {
    EntriesShape(Responses(service, [template, template]));
  }

  // ----- single-row mode -----

  /** Single-row mode has no skip rule: an in-range row is audited even when all
      its readings are "None"; an out-of-range index sends no request. */
  lemma SingleRowGuard(rows: seq<Row>, rowIndex: int, template: Template, service: Service)
    ensures 0 <= rowIndex < |rows| ==> AuditSingleRow(rows, rowIndex, template, service).Audited?
    ensures !(0 <= rowIndex < |rows|) ==> AuditSingleRow(rows, rowIndex, template, service) == NotInIndex
  {
  }

  /** Auditing the first row the skip rule keeps on its own gives the entry the
      full run writes for it. */
  lemma SingleRowMatchesReport(rows: seq<Row>, rowIndex: nat, template: Template, service: Service)
    requires rowIndex < |rows| && !Skipped(RowToDict(rows[rowIndex]))
    requires forall i :: 0 <= i < rowIndex ==> Skipped(RowToDict(rows[i]))
    ensures |ReportLines(rows, template, service)| > 2
    ensures ReportLines(rows, template, service)[2] == AuditSingleRow(rows, rowIndex, template, service).response
  {
    var before, at, after := rows[..rowIndex], [rows[rowIndex]], rows[rowIndex + 1..];
    assert rows == before + at + after;
    RetainedAllSkipped(before);
    RetainedOne(rows[rowIndex]);
    RetainedAppend(before, at);
    RetainedAppend(before + at, after);
    assert Retained(rows)[0] == RowToDict(rows[rowIndex]);
    ReportShape(rows, template, service);
  }
}
