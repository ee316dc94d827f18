# NLP dashboard service: SQL guardrail and prompt builder

The NLP dashboard service turns a user's natural-language question into a
ClickHouse query. It builds a prompt for a language model, sends the prompt,
and runs the SQL that comes back, scoped to the requesting tenant (`cm_id`).
This project models and proves properties of the two pure steps of that
pipeline, both in `NlpDashboardService`.

- **The SQL guardrail** is `validateAIGeneratedSQL`, modelled as
  `Guardrail.ValidateAiGeneratedSql`. It:
  - turns every line feed and semicolon of the model's reply into a space;
  - rejects, with status 422 and "Only select operation supported!", any
    reply that does not start with `SELECT` or `select`;
  - appends ` where cm_id = <cmId>` when the reply has no `WHERE` or
    `where`;
  - otherwise, under the condition at lines 112-113, rewrites every
    lower-case `where` into `where cm_id = <cmId> and `.
- **The prompt builder** is `getPromptForAI`, modelled as
  `PromptBuilder.PromptForAi`. It appends seven segments in a fixed order:
  the instruction, the shape for the dashboard type, the ignored columns,
  the tenant condition, the resolved user prompt, the optional date range,
  and the schema.

Files:
- `java_strings.dfy` (module `JavaStrings`) models the
  `java.lang.String` operations the two steps use:
  - `startsWith`, `indexOf` and `contains`;
  - `replace` with a literal target;
  - `split` with a separator free of regex metacharacters and the default
    limit, which drops trailing empty pieces;
  - `Integer.toString` and `equalsIgnoreCase`.
- `guardrail.dfy` (module `Guardrail`) holds the guardrail as written,
  its properties, and a corrected guardrail (see Findings).
- `prompt.dfy` (module `PromptBuilder`) holds the prompt builder and its
  properties.

Behaviour of the code worth noting:
- The guardrail adds no row limit. Line 116 is only a todo, and
  `limit 10000` appears only as prompt text at line 123.
- The `SELECT` test is case-sensitive apart from the two spellings
  `SELECT` and `select`, and nothing is trimmed first.
- The prompt segments come in the order of lines 121-138: instruction
  first, schema last.
- The tenant and ignored-column segments are appended for every dashboard
  type.

An index error from `split(...)[1]` is reached only through the generic
handler at lines 89-91. It is modelled as the error value
`SplitIndexOutOfBounds`, distinct from the 422 rejection.

## Model

| member | source | states |
|---|---|---|
| JavaStrings.IndexOf | src/main/java/com/kapturecrm/nlpdashboardservice/service/NlpDashboardService.java:112-113 | the first occurrence at or after the start index is found, none earlier; None only when there is no occurrence at all |
| JavaStrings.ReplaceIsIntercalate | src/main/java/com/kapturecrm/nlpdashboardservice/service/NlpDashboardService.java:114 | `replace` cuts the text at every occurrence of the target, found left to right without overlap, and joins the pieces with the replacement: every occurrence is rewritten and the text between them is kept |
| JavaStrings.PiecesRejoin | src/main/java/com/kapturecrm/nlpdashboardservice/service/NlpDashboardService.java:112-114 | joining the pieces back with the separator gives the original text, so the pieces are exactly the text between occurrences |
| JavaStrings.ReplaceGrows | src/main/java/com/kapturecrm/nlpdashboardservice/service/NlpDashboardService.java:114 | a replacement at least as long as the target never shortens the text |
| JavaStrings.ReplaceKeepsCharOut | src/main/java/com/kapturecrm/nlpdashboardservice/service/NlpDashboardService.java:114 | a character in neither the text nor the replacement is not in the result |
| JavaStrings.ReplaceKeepsOccurrence | src/main/java/com/kapturecrm/nlpdashboardservice/service/NlpDashboardService.java:114 | an occurrence of a text that shares no character with the target survives `replace` |
| JavaStrings.ReplaceInserts | src/main/java/com/kapturecrm/nlpdashboardservice/service/NlpDashboardService.java:114 | after `replace`, a text that contained the target contains the replacement |
| JavaStrings.ReplaceKeepsPrefix | src/main/java/com/kapturecrm/nlpdashboardservice/service/NlpDashboardService.java:114 | `replace` keeps a prefix that cannot hold the target's first character |
| JavaStrings.DropTrailingEmpty | src/main/java/com/kapturecrm/nlpdashboardservice/service/NlpDashboardService.java:112-113 | `split` with the default limit keeps a prefix of the pieces, ends on a non-empty piece, and drops only empty ones |
| JavaStrings.SplitSecondFails | src/main/java/com/kapturecrm/nlpdashboardservice/service/NlpDashboardService.java:112-113 | `split(sep)[1]` is out of bounds exactly when the separator does not occur, or when everything after the first separator is separators only |
| JavaStrings.SplitSecondSpec | src/main/java/com/kapturecrm/nlpdashboardservice/service/NlpDashboardService.java:112-113 | `split(sep)[1]` is the text right after the first separator, lies inside the statement, and holds no separator |
| JavaStrings.IntToString | src/main/java/com/kapturecrm/nlpdashboardservice/service/NlpDashboardService.java:111 | the text of an int is non-empty and made of digits and minus signs |
| JavaStrings.IntToStringRoundTrip | src/main/java/com/kapturecrm/nlpdashboardservice/service/NlpDashboardService.java:111 | the decimal text appended for `cmId` reads back as `cmId` |
| JavaStrings.EqualsIgnoreCaseLower | src/main/java/com/kapturecrm/nlpdashboardservice/service/NlpDashboardService.java:122 | comparing with a lower-case word while ignoring case is the same as lower-casing first |
| Guardrail.Sanitise | src/main/java/com/kapturecrm/nlpdashboardservice/service/NlpDashboardService.java:106 | line feeds and semicolons become spaces, character by character; the length is unchanged |
| Guardrail.SanitiseRemovesSeparators | src/main/java/com/kapturecrm/nlpdashboardservice/service/NlpDashboardService.java:106 | the sanitised text holds no line feed and no semicolon |
| Guardrail.SanitiseIdempotent | src/main/java/com/kapturecrm/nlpdashboardservice/service/NlpDashboardService.java:106 | sanitising leaves clean text alone, so sanitising twice is sanitising once |
| Guardrail.RewriteCondition | src/main/java/com/kapturecrm/nlpdashboardservice/service/NlpDashboardService.java:112-113 | the condition is false without `WHERE`/`where`, fails only in one of the two splits, and fails in the first whenever `WHERE` occurs without ` WHERE ` |
| Guardrail.ValidateAiGeneratedSql | src/main/java/com/kapturecrm/nlpdashboardservice/service/NlpDashboardService.java:104-118 | the result is the 422 rejection exactly when the sanitised reply starts with neither `SELECT` nor `select`; no other rejection occurs |
| Guardrail.RejectsExactlyNonSelect | src/main/java/com/kapturecrm/nlpdashboardservice/service/NlpDashboardService.java:107-108 | rejection exactly for non-select text; every other failure is the split index error |
| Guardrail.RejectsOtherCapitalisations | src/main/java/com/kapturecrm/nlpdashboardservice/service/NlpDashboardService.java:107-108 | `Select`, `sElEcT` and every other capitalisation are rejected |
| Guardrail.RejectsLeadingWhitespace | src/main/java/com/kapturecrm/nlpdashboardservice/service/NlpDashboardService.java:106-108 | a reply starting with a space, tab, carriage return, line feed or semicolon is rejected |
| Guardrail.TenantTextsHaveNoSeparators | src/main/java/com/kapturecrm/nlpdashboardservice/service/NlpDashboardService.java:111-114 | the appended clause and the rewrite text hold no line feed and no semicolon |
| Guardrail.AcceptedHasNoSeparators | src/main/java/com/kapturecrm/nlpdashboardservice/service/NlpDashboardService.java:106-115 | an accepted statement holds no line feed and no semicolon |
| Guardrail.AcceptedKeepsSelect | src/main/java/com/kapturecrm/nlpdashboardservice/service/NlpDashboardService.java:106-115 | an accepted statement starts with the same `SELECT`/`select` as the sanitised reply and is never shorter |
| Guardrail.UnscopedReplyGetsTenantClause | src/main/java/com/kapturecrm/nlpdashboardservice/service/NlpDashboardService.java:110-111 | without `WHERE`/`where`, the result is the sanitised reply followed by ` where cm_id = <cmId>` |
| Guardrail.UppercaseClauseNeverRewritten | src/main/java/com/kapturecrm/nlpdashboardservice/service/NlpDashboardService.java:112-114 | with upper-case `WHERE` only, the statement comes back unchanged or the split fails |
| Guardrail.LowercaseClauseRewrittenOnlyWhenScoped | src/main/java/com/kapturecrm/nlpdashboardservice/service/NlpDashboardService.java:112-115 | with lower-case `where` only, the rewrite fires exactly when the text after the first ` where ` already names `cm_id` |
| Guardrail.LowercaseScopedClauseDuplicated | src/main/java/com/kapturecrm/nlpdashboardservice/service/NlpDashboardService.java:113-114 | when that rewrite fires, the result contains the added condition, and a `cm_id` that was already in the clause still follows it |
| Guardrail.MissingSeparatorFails | src/main/java/com/kapturecrm/nlpdashboardservice/service/NlpDashboardService.java:112-113 | `WHERE` without ` WHERE ` (or, with no upper case, `where` without ` where `) ends in the split index error |
| Guardrail.SegmentTenantInStatement | src/main/java/com/kapturecrm/nlpdashboardservice/service/NlpDashboardService.java:112-113 | a split segment that names `cm_id` implies the statement names it |
| Guardrail.TenantTextsNameTenant | src/main/java/com/kapturecrm/nlpdashboardservice/service/NlpDashboardService.java:111-114 | the appended clause and the rewrite text carry `cm_id = <cmId>` |
| Guardrail.UppercaseClauseLeftUnscoped | src/main/java/com/kapturecrm/nlpdashboardservice/service/NlpDashboardService.java:112-114 | an upper-case clause without `cm_id` is accepted unchanged, with no tenant condition |
| Guardrail.LowercaseClauseLeftUnscoped | src/main/java/com/kapturecrm/nlpdashboardservice/service/NlpDashboardService.java:113 | a lower-case clause without `cm_id` is accepted unchanged, with no tenant condition |
| Guardrail.NoRewriteMeansScoped | src/main/java/com/kapturecrm/nlpdashboardservice/service/NlpDashboardService.java:112-113 | corrected guardrail: a clause that needs no rewrite means the statement names `cm_id` already |
| Guardrail.ScopedOutcomes | src/main/java/com/kapturecrm/nlpdashboardservice/service/NlpDashboardService.java:110-115 | corrected guardrail: an accepted statement is the reply plus the clause, a rewrite of a keyword that occurs, or the reply itself when it names `cm_id` |
| Guardrail.AddedTextsNameTenant | src/main/java/com/kapturecrm/nlpdashboardservice/service/NlpDashboardService.java:111-114 | the appended clause and each rewrite put `cm_id = <cmId>` into the statement |
| Guardrail.ScopedOutputNamesTenant | src/main/java/com/kapturecrm/nlpdashboardservice/service/NlpDashboardService.java:110-115 | corrected guardrail: a reply that never mentions `cm_id` is accepted only with `cm_id = <cmId>` in it |
| Guardrail.ScopedOutputReferencesTenant | src/main/java/com/kapturecrm/nlpdashboardservice/service/NlpDashboardService.java:110-115 | corrected guardrail: every accepted statement names `cm_id` |
| Guardrail.ScopedAgreesOutsideRewrite | src/main/java/com/kapturecrm/nlpdashboardservice/service/NlpDashboardService.java:107-111 | the correction changes nothing for rejected replies or for replies without a where clause |
| PromptBuilder.JoinPlacesSegments | src/main/java/com/kapturecrm/nlpdashboardservice/service/NlpDashboardService.java:121-138 | successive appends lay the segments end to end: each starts where the previous one ends |
| PromptBuilder.SegmentsInOrder | src/main/java/com/kapturecrm/nlpdashboardservice/service/NlpDashboardService.java:121-138 | the prompt is exactly instruction, shape, ignored columns, tenant, user prompt, date range and schema, in this order |
| PromptBuilder.PromptForAi | src/main/java/com/kapturecrm/nlpdashboardservice/service/NlpDashboardService.java:120-141 | the prompt starts with the ClickHouse instruction and ends with the schema segment |
| PromptBuilder.ShapeAfterInstruction | src/main/java/com/kapturecrm/nlpdashboardservice/service/NlpDashboardService.java:121-129 | the shape segment follows the instruction directly |
| PromptBuilder.TabularShapeFollows | src/main/java/com/kapturecrm/nlpdashboardservice/service/NlpDashboardService.java:122-123 | for `table`/`text`, the 15-column, limit-10000 text follows the instruction and the chart text does not |
| PromptBuilder.ChartShapeFollows | src/main/java/com/kapturecrm/nlpdashboardservice/service/NlpDashboardService.java:124-129 | for other types, the chart alias text follows the instruction and the tabular text does not |
| PromptBuilder.ShapeFollowsType | src/main/java/com/kapturecrm/nlpdashboardservice/service/NlpDashboardService.java:122-129 | the tabular text follows the instruction exactly when the type is `table` or `text` |
| PromptBuilder.ShapeIgnoresCase | src/main/java/com/kapturecrm/nlpdashboardservice/service/NlpDashboardService.java:122 | a type is tabular exactly when its lower-case form is `table` or `text` |
| PromptBuilder.TenantAlwaysRequested | src/main/java/com/kapturecrm/nlpdashboardservice/service/NlpDashboardService.java:130-131 | every prompt asks to ignore the id columns and to include the same `cm_id = <cmId>` the guardrail adds |
| PromptBuilder.DateRangeNeedsBothDates | src/main/java/com/kapturecrm/nlpdashboardservice/service/NlpDashboardService.java:135-137 | with a date missing, the prompt equals the prompt without dates; with both, it is that prompt with the range inserted before the schema |

## Left out

- `generateNlpDashboard` (lines 45-93) is not modelled. It covers the session lookup, the persistence thread, the OpenAI calls, the query execution and the response wrapping: threads, network and database I/O. Its rule that `cmId` is 0 without a session (line 49) stays with the caller. Any `Int32` is accepted.
- `setData` (lines 95-101) is not modelled: it only copies fields into an entity that is saved elsewhere.
- The repository (`NlpDashboardRepository`) and the schema cache (`TableNameToSchemaCache`) are not part of this model. They are database and Redis I/O.
- Table-name resolution, the chart alias lookup, timestamp formatting and the rendering of the schema object (lines 126, 133, 136, 138) are not modelled. Their code is not available. They are the function fields of `PromptBuilder.Helpers`, and the schema is the text that resolution yields.
- Null inputs are not modelled. A null reply or dashboard type throws a NullPointerException, which the generic handler turns into an error response. A null user prompt goes only to the table-name resolution helper (line 133) and into string concatenation (line 66), so what happens to it depends on that helper, whose code is not available. A null date is `None`.
- Strings are modelled as sequences of characters. UTF-16 surrogate pairs are not distinguished.
- `equalsIgnoreCase` folds ASCII letters only. Non-ASCII case pairs are not modelled.
- `split` is modelled for plain-text separators only. ` WHERE ` and ` where ` contain no regex metacharacters.
- `replaceAll("[\n;]", " ")` is modelled as the character mapping it performs, not as a general regex.
- `JavaStrings.SplitSecondSpec` states where the segment lies and that it holds no separator. It does not state that the segment runs up to the second separator or to the end of the text.

## Findings

| source | as written | input that shows it | evidently intended | confidence | as-written member | corrected member |
|---|---|---|---|---|---|---|
| src/main/java/com/kapturecrm/nlpdashboardservice/service/NlpDashboardService.java:112-114 | the condition at 112 fires on an upper-case `WHERE` clause without `cm_id`, but `replace` at 114 rewrites lower-case `where` only | `SELECT a FROM t WHERE b = 1`: returned unchanged, with no tenant condition | rewrite the keyword in the case in which it was found | not executed | Guardrail.UppercaseClauseLeftUnscoped | Guardrail.ScopedOutputNamesTenant |
| src/main/java/com/kapturecrm/nlpdashboardservice/service/NlpDashboardService.java:113 | the second disjunct lacks the `!` of the first, so a lower-case clause is rewritten only when it already names `cm_id` | `select a from t where b = 1`: returned unchanged, with no tenant condition | rewrite when the clause does not name `cm_id` | not executed | Guardrail.LowercaseClauseLeftUnscoped | Guardrail.ScopedOutputNamesTenant |
