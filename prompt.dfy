/** Prompt construction: `AUDIT_PROMPT_TEMPLATE.format(row_data_str=..., kanjiID=..., kanji=...)`.

    The active template contains no brace, so it opens no replacement field, and
    `str.format` ignores keyword arguments that no field names: the prompt is the
    template text, unchanged, for every row, and the row's data never reaches the
    service. */
module Prompt {

  /** A string `str.format` copies unchanged whatever keyword arguments it gets:
      it has no `{` (no replacement field) and no `}` (no escaped brace). */
  predicate FormatLiteral(s: string) {
    '{' !in s && '}' !in s
  }

  /** The kind of template the script uses: instruction text without fields. */
  type Template = t: string | FormatLiteral(t) witness ""

  /** The prompt for one row, from the three keyword arguments the script passes.
      The template names none of them, so none is used. */
  function BuildPrompt(template: Template, rowDataStr: string, kanjiId: string, kanji: string): string {
    template
  }

  /** The prompt is the template verbatim and does not depend on the row: every
      row sends the same request. */
  lemma PromptIgnoresRow(template: Template, rowDataStr: string, kanjiId: string, kanji: string,
                         rowDataStr': string, kanjiId': string, kanji': string)
    ensures BuildPrompt(template, rowDataStr, kanjiId, kanji) == template
    ensures BuildPrompt(template, rowDataStr, kanjiId, kanji) == BuildPrompt(template, rowDataStr', kanjiId', kanji')
  {
  }
}
